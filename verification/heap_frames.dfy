/** Where the kernel heap's pages come from: `heap_expand` of src/kernel/kern_vmm.c on the machine's free frames.
    A page of the heap takes a frame, and one more for every page table that is missing on the way to it. */
module HeapFrames {
  import opened Options
  import opened Paging
  import opened FrameLedger
  import opened AddressSpaces
  import opened FrameOwnership
  import H = HeapSpec

  /** How many pages from `v` on can be mapped in the space `root`, which has the tables `have`, out of `frames` frames. */
  ghost function Backable(have: set<Slot>, root: nat, v: nat, frames: nat): (n: nat)
    ensures n <= frames
    decreases frames
  {
    var cost := 1 + Missing(have, root, PageOf(v));
    if frames < cost then 0 else 1 + Backable(have + PathSlots(root, PageOf(v)), root, v + PAGE_SIZE, frames - cost)
  }

  /** `n` pages can be backed exactly when the frames for the pages and their missing tables are there. */
  lemma {:induction false} BackableIff(have: set<Slot>, root: nat, v: nat, frames: nat, n: nat)
    ensures n <= Backable(have, root, v, frames) <==> FramesFor(have, root, v, n) <= frames
    decreases n
  {
    hide PathSlots, Missing, PageOf;
    var cost := 1 + Missing(have, root, PageOf(v));
    if n > 0 && frames >= cost {
      BackableIff(have + PathSlots(root, PageOf(v)), root, v + PAGE_SIZE, frames - cost, n - 1);
    }
  }

  /** The pages that `kmalloc` needs of `heap_expand` for an aligned request. */
  function PagesNeeded(n: nat): nat {
    (n + H.HEADER + H.PAGE_SIZE - 1) / H.PAGE_SIZE
  }

  // ------------------------------------------------------------------ heap_expand

  /** What the loop of `heap_expand` leaves: the pages gained, and the tables and frames afterwards. It goes astray when
      there is a frame for the next page but too few for the tables on the way to it. `vmm_map_page_in_pml4` does not look
      at what the allocator returns, and would go on with frame 0 as a table. */
  datatype Run = Run(pages: nat, have: set<Slot>, frames: nat, astray: bool)

  ghost function ExpandRun(have: set<Slot>, root: nat, v: nat, frames: nat, pages: nat): Run
    decreases pages
  {
    if pages == 0 || frames == 0 then Run(0, have, frames, false)
    else
      var cost := 1 + Missing(have, root, PageOf(v));
      if frames < cost then Run(0, have, frames, true)
      else Longer(ExpandRun(have + PathSlots(root, PageOf(v)), root, v + PAGE_SIZE, frames - cost, pages - 1))
  }

  function Longer(run: Run): Run {
    run.(pages := run.pages + 1)
  }

  /** The frames do not run out between one of the pages and its tables: where no page can be backed, no frame is left. */
  ghost predicate RunsOutWhole(have: set<Slot>, root: nat, v: nat, frames: nat, pages: nat) {
    var n := Backable(have, root, v, frames);
    n < pages ==> FramesFor(have, root, v, n) == frames
  }

  /** The loop gains what it wants or what can be backed. Its test for a missing frame catches every shortage exactly when
      the frames do not run out between a page and its tables. */
  lemma {:induction false} ExpandRunIs(have: set<Slot>, root: nat, v: nat, frames: nat, pages: nat)
    ensures var r, n := ExpandRun(have, root, v, frames, pages), Backable(have, root, v, frames);
            && r.pages == (if pages <= n then pages else n)
            && (r.astray <==> !RunsOutWhole(have, root, v, frames, pages))
            && (r.astray ==> r.pages < pages && 0 < r.frames <= Missing(r.have, root, PageOf(v + r.pages * PAGE_SIZE)))
            && (!r.astray && r.pages < pages ==> r.frames == 0)
            && Backable(r.have, root, v + r.pages * PAGE_SIZE, r.frames) == n - r.pages
            && r.frames <= frames && (r.pages > 0 ==> r.frames < frames)
    decreases pages
  {
    hide PathSlots, Missing, PageOf;
    var cost := 1 + Missing(have, root, PageOf(v));
    if pages > 0 && frames >= cost {
      var have' := have + PathSlots(root, PageOf(v));
      ExpandRunIs(have', root, v + PAGE_SIZE, frames - cost, pages - 1);
      var r := ExpandRun(have', root, v + PAGE_SIZE, frames - cost, pages - 1);
      assert v + PAGE_SIZE + r.pages * PAGE_SIZE == v + (r.pages + 1) * PAGE_SIZE;
    }
  }

  /** The condition, one page on. */
  lemma {:induction false} RunsOutStep(have: set<Slot>, root: nat, v: nat, frames: nat, pages: nat)
    requires pages > 0 && frames >= 1 + Missing(have, root, PageOf(v))
    ensures RunsOutWhole(have, root, v, frames, pages) <==>
              RunsOutWhole(have + PathSlots(root, PageOf(v)), root, v + PAGE_SIZE, frames - 1 - Missing(have, root, PageOf(v)), pages - 1)
  {
    hide PathSlots, Missing, PageOf;
  }

  // ---------------------------------------------------------------------- kmalloc

  datatype Outcome = Null | Given(p: nat) | Astray

  /** The heap after an expansion. */
  ghost function Grown(h: H.Heap, kernel: nat, run: Run): H.Heap
    requires run.pages > 0
  {
    var end := h.end + run.pages * PAGE_SIZE;
    H.Heap(h.blocks + [H.Block(h.end, run.pages * PAGE_SIZE - H.HEADER, true)], end, Backable(run.have, kernel, end, run.frames))
  }

  /** `kmalloc` for an aligned request, on the machine's free frames and the kernel's tables. */
  ghost function MallocOn(h: H.Heap, have: set<Slot>, kernel: nat, frames: nat, n: nat): Outcome
    decreases frames
  {
    var k := H.FirstFit(h.blocks, n);
    if k < |h.blocks| then Given(h.blocks[k].addr + H.HEADER) else
    var run := ExpandRun(have, kernel, h.end, frames, H.PagesWanted(h.end, (n + H.HEADER) % H.U64));
    if run.astray then Astray
    else if run.pages == 0 || run.frames >= frames then Null
    else MallocOn(Grown(h, kernel, run), run.have, kernel, run.frames, n)
  }

  /** The pages that the retries of `kmalloc` ask for in all, while frames last. A request whose end would wrap past 2^64
      asks for none, but for the largest one, which asks for one page at a time up to the top. */
  function PagesTried(end: nat, n: nat): nat {
    if n + H.HEADER <= H.RoomAbove(end) then PagesNeeded(n)
    else if n == H.U64 - 16 && H.RoomAbove(end) >= 0 then H.RoomAbove(end) / H.PAGE_SIZE
    else 0
  }

  lemma {:induction false} WantedTried(end: nat, n: nat)
    requires H.KHEAP_START <= end < H.U64 && end % H.PAGE_SIZE == 0 && n < H.U64 && n % 16 == 0
    ensures var w := H.PagesWanted(end, (n + H.HEADER) % H.U64);
            && (n + H.HEADER <= H.RoomAbove(end) || n != H.U64 - 16 ==> w == PagesTried(end, n))
            && (n == H.U64 - 16 ==> n + H.HEADER > H.RoomAbove(end) && w == (if PagesTried(end, n) == 0 then 0 else 1))
            && (n == H.U64 - 16 && w == 1 ==> PagesTried(end + PAGE_SIZE, n) == PagesTried(end, n) - 1)
  {
    hide H.PagesWanted;
    RoomLeft(end);
    if n + H.HEADER <= H.RoomAbove(end) {
      WantedExactly(end, n + H.HEADER);
    } else if n == H.U64 - 16 {
      WantedLargest(end);
      assert (n + H.HEADER) % H.U64 == 16;
      hide PagesNeeded;
    } else {
      WantedNone(end, n + H.HEADER);
    }
  }

  lemma {:induction false} RoomLeft(end: nat)
    requires end < H.U64 && end % H.PAGE_SIZE == 0
    ensures H.RoomAbove(end) >= 0 && (H.RoomAbove(end) / H.PAGE_SIZE == 0 <==> H.RoomAbove(end) == 0)
    ensures H.RoomAbove(end) > 0 ==>
              && H.RoomAbove(end + PAGE_SIZE) >= 0
              && H.RoomAbove(end + PAGE_SIZE) / H.PAGE_SIZE == H.RoomAbove(end) / H.PAGE_SIZE - 1
  {
  }

  lemma {:induction false} WantedLargest(end: nat)
    requires end < H.U64 && end % H.PAGE_SIZE == 0
    ensures H.PagesWanted(end, 16) == if H.RoomAbove(end) == 0 then 0 else 1
  {
    assert (end + 16) % H.U64 == end + 16 && (end + 16) % H.PAGE_SIZE == 16;
  }

  lemma {:induction false} WantedExactly(end: nat, needed: nat)
    requires end % H.PAGE_SIZE == 0 && 0 < needed <= H.RoomAbove(end)
    ensures H.PagesWanted(end, needed) == (needed + H.PAGE_SIZE - 1) / H.PAGE_SIZE
  {
    H.PagesWithin(H.Heap([], end, needed), needed);
  }

  lemma {:induction false} WantedNone(end: nat, m: nat)
    requires end < H.U64 && end % H.PAGE_SIZE == 0 && H.RoomAbove(end) < m <= H.U64
    ensures H.PagesWanted(end, m % H.U64) == 0
  {
  }

  lemma {:induction false} FramesAtLeast(have: set<Slot>, root: nat, v: nat, n: nat)
    ensures FramesFor(have, root, v, n) >= n
    decreases n
  {
    if n > 0 { FramesAtLeast(have + PathSlots(root, PageOf(v)), root, v + PAGE_SIZE, n - 1); }
  }

  lemma {:induction false} NoFrames(have: set<Slot>, root: nat, v: nat, pages: nat)
    ensures RunsOutWhole(have, root, v, 0, pages)
  {
  }

  lemma {:induction false} RunsOutMore(have: set<Slot>, root: nat, v: nat, frames: nat, pages: nat, more: nat)
    requires pages <= more && RunsOutWhole(have, root, v, frames, more)
    ensures RunsOutWhole(have, root, v, frames, pages)
  {
  }

  lemma {:induction false} OnePage(have: set<Slot>, root: nat, v: nat, frames: nat)
    ensures var r, cost := ExpandRun(have, root, v, frames, 1), 1 + Missing(have, root, PageOf(v));
            && (r.pages > 0 ==> frames >= cost && r == Run(1, have + PathSlots(root, PageOf(v)), frames - cost, false))
            && (r.pages == 0 && !r.astray ==> frames == 0)
  {
    assert ExpandRun(have + PathSlots(root, PageOf(v)), root, v + PAGE_SIZE, 0, 0).pages == 0;
  }

  /** What the first expansion says about all of them. */
  lemma {:induction false} TriedOn(have: set<Slot>, root: nat, end: nat, frames: nat, n: nat)
    requires H.KHEAP_START <= end < H.U64 && end % H.PAGE_SIZE == 0 && n < H.U64 && n % 16 == 0
    ensures var w, t := H.PagesWanted(end, (n + H.HEADER) % H.U64), PagesTried(end, n);
            var run := ExpandRun(have, root, end, frames, w);
            && (run.astray ==> !RunsOutWhole(have, root, end, frames, t))
            && (!run.astray && run.pages == 0 ==> RunsOutWhole(have, root, end, frames, t))
            && (!run.astray && run.pages > 0 && n + H.HEADER <= H.RoomAbove(end) ==>
                  && RunsOutWhole(have, root, end, frames, t)
                  && (run.frames == 0 || run.pages == PagesNeeded(n)))
            && (!run.astray && run.pages > 0 && n + H.HEADER > H.RoomAbove(end) ==>
                  && run.pages == 1 && n == H.U64 - 16
                  && (RunsOutWhole(have, root, end, frames, t)
                      <==> RunsOutWhole(run.have, root, end + PAGE_SIZE, run.frames, PagesTried(end + PAGE_SIZE, n))))
  {
    hide RunsOutWhole, ExpandRun, Backable, Missing, PathSlots, PageOf, PagesNeeded, PagesTried, H.PagesWanted;
    var w, t := H.PagesWanted(end, (n + H.HEADER) % H.U64), PagesTried(end, n);
    WantedTried(end, n);
    ExpandRunIs(have, root, end, frames, w);
    TriedIs(end, n);
    if n + H.HEADER > H.RoomAbove(end) && n == H.U64 - 16 && w == 1 {
      LargestTried(have, root, end, frames, t);
    }
  }

  lemma {:induction false} TriedIs(end: nat, n: nat)
    ensures n + H.HEADER <= H.RoomAbove(end) ==> PagesTried(end, n) == PagesNeeded(n)
    ensures n + H.HEADER > H.RoomAbove(end) && n != H.U64 - 16 ==> PagesTried(end, n) == 0
  {
  }

  lemma {:induction false} LargestTried(have: set<Slot>, root: nat, end: nat, frames: nat, t: nat)
    requires t > 0
    ensures var run := ExpandRun(have, root, end, frames, 1);
            && (run.astray ==> !RunsOutWhole(have, root, end, frames, t))
            && (!run.astray && run.pages == 0 ==> RunsOutWhole(have, root, end, frames, t))
            && (run.pages > 0 ==>
                  && run.pages == 1 && !run.astray
                  && (RunsOutWhole(have, root, end, frames, t) <==> RunsOutWhole(run.have, root, end + PAGE_SIZE, run.frames, t - 1)))
  {
    hide RunsOutWhole, ExpandRun, Backable, Missing, PathSlots, PageOf;
    var run := ExpandRun(have, root, end, frames, 1);
    ExpandRunIs(have, root, end, frames, 1);
    OnePage(have, root, end, frames);
    NoFrames(have, root, end, t);
    if RunsOutWhole(have, root, end, frames, t) { RunsOutMore(have, root, end, frames, 1, t); }
    if run.pages > 0 { RunsOutStep(have, root, end, frames, t); }
  }

  lemma {:induction false} HeapEnd(h: H.Heap)
    requires H.Wf(h)
    ensures H.KHEAP_START <= h.end < H.U64 && h.end % H.PAGE_SIZE == 0
  {
    H.TilesSpan(h.blocks, H.KHEAP_START, h.end);
  }

  /** The pages that a request needs are enough for it. */
  lemma {:induction false} NeededFits(n: nat)
    ensures PagesNeeded(n) * H.PAGE_SIZE - H.HEADER >= n
  {
  }

  /** Whether `kmalloc` goes astray on its way; where it does not, it does what the allocator does for the pages that can
      be backed. */
  lemma {:induction false} OnFrames(h: H.Heap, have: set<Slot>, kernel: nat, frames: nat, n: nat)
    requires H.Wf(h) && n < H.U64 && n % 16 == 0 && h.backed == Backable(have, kernel, h.end, frames)
    ensures var o := MallocOn(h, have, kernel, frames, n);
            && (o == Astray <==> H.FirstFit(h.blocks, n) == |h.blocks| && !RunsOutWhole(have, kernel, h.end, frames, PagesTried(h.end, n)))
            && (o != Astray ==> o == match H.Malloc(h, n).1 case None => Null case Some(p) => Given(p))
    decreases frames
  {
    hide H.Wf, RunsOutWhole, ExpandRun, Backable, PagesTried, PagesNeeded, H.PagesWanted;
    if H.FirstFit(h.blocks, n) == |h.blocks| {
      var w := H.PagesWanted(h.end, (n + H.HEADER) % H.U64);
      var run := ExpandRun(have, kernel, h.end, frames, w);
      HeapEnd(h);
      ExpandRunIs(have, kernel, h.end, frames, w);
      TriedOn(have, kernel, h.end, frames, n);
      if !run.astray && run.pages > 0 {
        OnFramesNext(h, have, kernel, frames, n, run);
        OnFrames(Grown(h, kernel, run), run.have, kernel, run.frames, n);
      }
    }
  }

  /** The heap after the first expansion, and what decides about the retry. */
  lemma {:induction false} OnFramesNext(h: H.Heap, have: set<Slot>, kernel: nat, frames: nat, n: nat, run: Run)
    requires H.Wf(h) && n < H.U64 && n % 16 == 0 && h.backed == Backable(have, kernel, h.end, frames)
    requires H.FirstFit(h.blocks, n) == |h.blocks| && run.pages > 0 && !run.astray
    requires run == ExpandRun(have, kernel, h.end, frames, H.PagesWanted(h.end, (n + H.HEADER) % H.U64))
    ensures run.pages == H.PagesGained(h, (n + H.HEADER) % H.U64) && Grown(h, kernel, run) == H.Grow(h, run.pages)
    ensures H.Wf(Grown(h, kernel, run)) && run.frames < frames
    ensures (H.FirstFit(Grown(h, kernel, run).blocks, n) == |Grown(h, kernel, run).blocks|
             && !RunsOutWhole(run.have, kernel, Grown(h, kernel, run).end, run.frames, PagesTried(Grown(h, kernel, run).end, n)))
            <==> !RunsOutWhole(have, kernel, h.end, frames, PagesTried(h.end, n))
  {
    hide H.Wf, RunsOutWhole, ExpandRun, Backable, PagesTried, PagesNeeded, H.PagesWanted, H.FirstFit;
    HeapEnd(h);
    ExpandRunIs(have, kernel, h.end, frames, H.PagesWanted(h.end, (n + H.HEADER) % H.U64));
    TriedOn(have, kernel, h.end, frames, n);
    H.GrowWf(h, (n + H.HEADER) % H.U64);
    H.GrowFit(h, run.pages, n);
    NeededFits(n);
    NoFrames(run.have, kernel, h.end + run.pages * PAGE_SIZE, PagesTried(h.end + run.pages * PAGE_SIZE, n));
  }

  /** The three ends of `kmalloc` in terms of the machine's free frames. When nothing fits, it goes astray exactly when the
      frames run out between a page and its tables; otherwise it returns null exactly when the end address would wrap past
      2^64 or the frames do not suffice for the pages and the page tables missing on the way. */
  lemma {:induction false} NullIffFrames(h: H.Heap, n: nat, have: set<Slot>, kernel: nat, frames: nat)
    requires H.Wf(h) && n < H.U64 && n % 16 == 0 && h.backed == Backable(have, kernel, h.end, frames)
    ensures var o, none, whole := MallocOn(h, have, kernel, frames, n), H.FirstFit(h.blocks, n) == |h.blocks|,
                                  RunsOutWhole(have, kernel, h.end, frames, PagesTried(h.end, n));
            var short := n + H.HEADER > H.RoomAbove(h.end) || FramesFor(have, kernel, h.end, PagesNeeded(n)) > frames;
            && (o == Astray <==> none && !whole) && (o == Null <==> none && whole && short)
  {
    hide H.Malloc, H.Wf, H.FirstFit, Backable, FramesFor, RunsOutWhole, MallocOn, PagesTried;
    H.MallocNullIff(h, n);
    BackableIff(have, kernel, h.end, frames, PagesNeeded(n));
    OnFrames(h, have, kernel, frames, n);
  }

  /** A frame for every page is not enough when a page table is missing: nothing is handed out, and with one page and one
      frame `kmalloc` goes astray. */
  lemma {:induction false} TableShort(h: H.Heap, n: nat, have: set<Slot>, kernel: nat, frames: nat)
    requires H.Wf(h) && n < H.U64 && n % 16 == 0 && h.backed == Backable(have, kernel, h.end, frames)
    requires H.FirstFit(h.blocks, n) == |h.blocks| && frames == PagesNeeded(n) && Missing(have, kernel, PageOf(h.end)) > 0
    ensures !MallocOn(h, have, kernel, frames, n).Given?
    ensures frames == 1 && n + H.HEADER <= H.RoomAbove(h.end) ==> MallocOn(h, have, kernel, frames, n) == Astray
  {
    hide H.Malloc, H.Wf, H.FirstFit, Missing, PageOf, PathSlots, MallocOn;
    NullIffFrames(h, n, have, kernel, frames);
    FramesAtLeast(have + PathSlots(kernel, PageOf(h.end)), kernel, h.end + PAGE_SIZE, PagesNeeded(n) - 1);
  }

  /** A heap of one live block that ends at a 2 MiB boundary, where the last-level table is missing; one free frame, and a
      request of 16 bytes. */
  lemma {:induction false} OneFrameLeft(kernel: nat)
    ensures var end := H.KHEAP_START + 0x20_0000;
            var p := PageOf(end);
            var have := {Slot(kernel, Pdpt(p.a)), Slot(kernel, Pd(p.a, p.b))};
            var h := H.Heap([H.Block(H.KHEAP_START, 0x20_0000 - H.HEADER, false)], end, 0);
            && H.Wf(h) && h.backed == Backable(have, kernel, end, 1) && Missing(have, kernel, p) == 1
            && MallocOn(h, have, kernel, 1, 16) == Astray
  {
    var end := H.KHEAP_START + 0x20_0000;
    var p := PageOf(end);
    var have := {Slot(kernel, Pdpt(p.a)), Slot(kernel, Pd(p.a, p.b))};
    var h := H.Heap([H.Block(H.KHEAP_START, 0x20_0000 - H.HEADER, false)], end, 0);
    H.OneTile(h.blocks[0], end);
    assert H.FirstFit(h.blocks, 16) == 1 by { assert h.blocks[1..] == []; }
    hide MallocOn, H.FirstFit, PageOf;
    assert Missing(have, kernel, p) == 1;
    TableShort(h, 16, have, kernel, 1);
  }

  // -------------------------------------------------------------- on the machine

  lemma {:induction false} TopEntry(v: nat)
    requires H.KHEAP_START <= v < H.U64
    ensures PageOf(v).a == 511
  {
  }

  /** The frames that changed hands went from the free list to the heap and to tables. */
  ghost predicate OnlyHeap(owner: Owners, owner': Owners) {
    && owner'.Keys == owner.Keys
    && forall f :: f in owner && owner'[f] != owner[f] ==> owner[f] == Free && (owner'[f].Heap? || owner'[f].Table?)
  }

  lemma {:induction false} OnlyHeapStep(owner0: Owners, owner: Owners, owner': Owners, f: nat)
    requires OnlyHeap(owner0, owner) && f in owner && owner[f] == Free && OnlyTables(owner[f := Heap], owner')
    ensures OnlyHeap(owner0, owner')
  {
  }

  /** The loop of `heap_expand` for `pages` pages at `v`. Where the source would go on with too few frames for the page
      tables, it stops. */
  method HeapExpand(m: Machine, v: nat, pages: nat, r: nat) returns (got: nat, astray: bool)
    requires m.Valid() && r in m.procs && H.KHEAP_START <= v && v + pages * PAGE_SIZE < H.U64
    modifies m`mem, m`head, m`freeCount, m`free, m`owner, m`tab, m`user
    ensures m.Valid() && m.user == old(m.user) && OnlyHeap(old(m.owner), m.owner)
    ensures Run(got, m.tab.Keys, |m.free|, astray) == old(ExpandRun(m.tab.Keys, m.kernel, v, |m.free|, pages))
  {
    hide m.Valid, ExpandRun, Missing, PathSlots, PageOf, OnlyChanges, OnlyTables, OnlyHeap;
    ghost var whole := ExpandRun(m.tab.Keys, m.kernel, v, |m.free|, pages);
    var at := v;
    got := 0;
    NothingTaken(m.owner);
    while got < pages
      invariant got <= pages && at == v + got * PAGE_SIZE
      invariant m.Valid() && r in m.procs && m.user == old(m.user) && OnlyHeap(old(m.owner), m.owner)
      invariant whole == Further(ExpandRun(m.tab.Keys, m.kernel, at, |m.free|, pages - got), got)
    {
      ExpandRunOne(m.tab.Keys, m.kernel, at, |m.free|, pages - got);
      PageBelow(v, got, pages);
      TopEntry(at);
      var missing, frames := m.TablesMissing(at);
      if 0 < frames <= missing {
        return got, true;
      }
      ghost var before := m.owner;
      ghost var f := if m.free != [] then m.free[0] else 0;
      var ok := m.HeapGrow(at, r);
      if !ok {
        return got, false;
      }
      OnlyHeapStep(old(m.owner), before, m.owner, f);
      got := got + 1;
      at := at + PAGE_SIZE;
    }
    ExpandRunOne(m.tab.Keys, m.kernel, at, |m.free|, 0);
    return got, false;
  }

  /** The same run, `k` pages further on. */
  function Further(run: Run, k: nat): Run {
    run.(pages := run.pages + k)
  }

  lemma {:induction false} ExpandRunOne(have: set<Slot>, root: nat, v: nat, frames: nat, pages: nat)
    ensures var r, cost := ExpandRun(have, root, v, frames, pages), 1 + Missing(have, root, PageOf(v));
            && (pages == 0 || frames == 0 ==> r == Run(0, have, frames, false))
            && (pages > 0 && 0 < frames < cost ==> r == Run(0, have, frames, true))
            && (pages > 0 && frames >= cost ==>
                  r == Longer(ExpandRun(have + PathSlots(root, PageOf(v)), root, v + PAGE_SIZE, frames - cost, pages - 1)))
  {
  }

  lemma {:induction false} PageBelow(v: nat, got: nat, pages: nat)
    requires got < pages
    ensures v + got * PAGE_SIZE < v + pages * PAGE_SIZE && v + got * PAGE_SIZE + PAGE_SIZE == v + (got + 1) * PAGE_SIZE
  {
  }

  lemma {:induction false} NothingTaken(owner: Owners)
    ensures OnlyHeap(owner, owner)
  {
  }
}
