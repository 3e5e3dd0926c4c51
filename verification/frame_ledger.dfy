/** Who owns each physical frame: the ledger that `pmalloc`, `pfree`, attaching, detaching and process
    teardown keep (src/kernel/kern_vmm.c, kern_sched.c, kern_ipc.c). */
module FrameLedger {
  import opened Options
  import opened Paging
  import S = SharedMemory

  /** A `kern_mem_region_t`. */
  datatype Region = Region(virt: nat, phys: nat, pages: nat)

  /** The memory fields of a `kern_process_t`; a process is named by its top table (`cr3`). */
  datatype Proc = Proc(heapVptr: nat, regions: seq<Region>)

  type Layout = map<nat, Proc>
  type Owners = map<nat, Owner>
  /** The user pages that are mapped: top table and virtual address to frame. */
  type UserMap = map<(nat, nat), nat>

  predicate UserAddr(v: nat) {
    v % PAGE_SIZE == 0 && v < USER_END
  }

  function RegionEnd(g: Region): nat {
    g.virt + g.pages * PAGE_SIZE
  }

  predicate Inside(g: Region, v: nat) {
    g.virt <= v < RegionEnd(g)
  }

  ghost predicate InRegions(gs: seq<Region>, v: nat) {
    exists k :: 0 <= k < |gs| && Inside(gs[k], v)
  }

  ghost predicate HandleAt(slots: seq<S.Entry>, id: nat, v: nat) {
    exists h :: 0 <= h < |slots| && S.Names(slots[h], id) && slots[h].virt == v
  }

  // ------------------------------------------------------------- the free list

  ghost predicate Distinct(fs: seq<nat>) {
    forall i, j :: 0 <= i < j < |fs| ==> fs[i] != fs[j]
  }

  function NextFree(fs: seq<nat>, k: nat): nat {
    if k < |fs| then fs[k] else 0
  }

  /** Free frame `k` points to the next one. */
  ghost predicate Linked(mem: Memory, free: seq<nat>, k: nat)
    requires k < |free|
  {
    free[k] in mem && |mem[free[k]]| == 512 && mem[free[k]][0] == NextFree(free, k + 1)
  }

  /** The frames, and the LIFO list of free ones threaded through their first words. */
  ghost predicate FramesOk(mem: Memory, head: nat, count: nat, free: seq<nat>, owner: Owners) {
    && mem.Keys == owner.Keys
    && (forall f :: f in mem ==> FrameAddr(f) && |mem[f]| == 512)
    && head == NextFree(free, 0) && count == |free| && Distinct(free)
    && (forall k :: 0 <= k < |free| ==> Linked(mem, free, k))
    && (forall f :: f in owner ==> (owner[f] == Free <==> f in free))
  }

  lemma {:induction false} AllocFrames(mem: Memory, head: nat, count: nat, free: seq<nat>, owner: Owners, o: Owner)
    requires FramesOk(mem, head, count, free, owner) && free != [] && o != Free
    ensures head == free[0] && head != 0 && FrameAddr(head) && head in mem && |mem[head]| == 512 && owner[head] == Free
    ensures FramesOk(mem[head := Zeros()], mem[head][0], count - 1, free[1..], owner[head := o])
  {
    var mem', owner', free' := mem[head := Zeros()], owner[head := o], free[1..];
    assert Linked(mem, free, 0);
    TailMembers(free);
    assert forall f :: f in owner' ==> (owner'[f] == Free <==> f in free');
    forall k | 0 <= k < |free'| ensures Linked(mem', free', k) {
      assert Linked(mem, free, k + 1) && free'[k] == free[k + 1] && free[0] != free[k + 1];
    }
  }

  lemma {:induction false} TailMembers(free: seq<nat>)
    requires free != [] && Distinct(free)
    ensures forall f :: f in free[1..] <==> f in free && f != free[0]
    ensures Distinct(free[1..])
  {
    forall f ensures f in free[1..] <==> f in free && f != free[0] {
      if f in free && f != free[0] {
        var k :| 0 <= k < |free| && free[k] == f;
        assert free[1..][k - 1] == f;
      }
    }
  }

  lemma {:induction false} ReleaseFrames(mem: Memory, head: nat, count: nat, free: seq<nat>, owner: Owners, f: nat)
    requires FramesOk(mem, head, count, free, owner) && f in owner && owner[f] != Free
    ensures f in mem && |mem[f]| == 512 && f != 0
    ensures FramesOk(SetWord(mem, f, 0, head), f, count + 1, [f] + free, owner[f := Free])
  {
    var mem', owner', free' := SetWord(mem, f, 0, head), owner[f := Free], [f] + free;
    assert f !in free;
    forall k | 0 <= k < |free'| ensures Linked(mem', free', k) {
      if k > 0 { assert Linked(mem, free, k - 1) && free'[k] == free[k - 1]; }
    }
    assert Distinct(free') by {
      forall i, j | 0 <= i < j < |free'| ensures free'[i] != free'[j] {
        assert free'[j] == free[j - 1];
      }
    }
  }

  // ------------------------------------------------------------- the ledger

  /** Every mapped user page belongs to a process, lies below its heap pointer, and its frame is private to
      that page or shared. */
  ghost predicate UserOwned(owner: Owners, user: UserMap, lay: Layout) {
    forall k :: k in user ==>
      && k.0 in lay && UserAddr(k.1) && k.1 < lay[k.0].heapVptr
      && user[k] in owner && (owner[user[k]] == Page(k.0, k.1) || owner[user[k]].Shared?)
  }

  /** Every private frame is mapped at its page, inside a region of its process. */
  ghost predicate PagesMapped(owner: Owners, user: UserMap, lay: Layout) {
    forall f :: f in owner && owner[f].Page? ==>
      var k := (owner[f].root, owner[f].virt);
      k in user && user[k] == f && k.0 in lay && InRegions(lay[k.0].regions, k.1)
  }

  /** Every page of every region is mapped to a frame private to it. */
  ghost predicate RegionsBacked(owner: Owners, user: UserMap, lay: Layout) {
    forall r, v: nat :: r in lay && UserAddr(v) && InRegions(lay[r].regions, v) ==>
      (r, v) in user && user[(r, v)] in owner && owner[user[(r, v)]] == Page(r, v)
  }

  /** A shared frame is only mapped through an active handle of the process to its region. */
  ghost predicate SharedHeld(owner: Owners, user: UserMap, tables: map<nat, S.Table>) {
    forall k :: k in user && user[k] in owner && owner[user[k]].Shared? ==>
      k.0 in tables && HandleAt(tables[k.0].slots, owner[user[k]].id, k.1)
  }

  /** Every active handle maps the frame of its region. */
  ghost predicate HandlesMapped(owner: Owners, user: UserMap, tables: map<nat, S.Table>) {
    forall p, h :: p in tables && 0 <= h < |tables[p].slots| && tables[p].slots[h].active ==>
      var k := (p, tables[p].slots[h].virt);
      k in user && user[k] in owner && owner[user[k]] == Shared(tables[p].slots[h].id)
  }

  /** Single-page shared regions and shared frames correspond one to one. */
  ghost predicate RegionFrames(owner: Owners, reg: seq<S.Region>) {
    && (forall i :: 0 <= i < |reg| ==> reg[i].pages == 1 && reg[i].phys in owner && owner[reg[i].phys] == Shared(reg[i].id))
    && (forall f :: f in owner && owner[f].Shared? ==>
          var w := S.Where(reg, owner[f].id); w < |reg| && reg[w].phys == f)
  }

  /** A process's regions are page-aligned and lie below each other under its heap pointer, the newest first. */
  ghost predicate Stacked(p: Proc) {
    && p.heapVptr % PAGE_SIZE == 0 && p.heapVptr <= USER_END
    && (forall k :: 0 <= k < |p.regions| ==> p.regions[k].virt % PAGE_SIZE == 0 && RegionEnd(p.regions[k]) <= p.heapVptr)
    && (forall k, l :: 0 <= k < l < |p.regions| ==> RegionEnd(p.regions[l]) <= p.regions[k].virt)
  }

  ghost predicate Layouts(lay: Layout) {
    forall r :: r in lay ==> Stacked(lay[r])
  }

  ghost predicate Ledger(owner: Owners, user: UserMap, lay: Layout, tables: map<nat, S.Table>, reg: seq<S.Region>) {
    && UserOwned(owner, user, lay) && PagesMapped(owner, user, lay) && RegionsBacked(owner, user, lay)
    && SharedHeld(owner, user, tables) && HandlesMapped(owner, user, tables) && RegionFrames(owner, reg)
    && Layouts(lay) && tables.Keys == lay.Keys
  }

  /** No private or shared frame changes hands. */
  ghost predicate SameUsers(owner: Owners, owner': Owners) {
    && (forall f :: f in owner && (owner[f].Page? || owner[f].Shared?) ==> f in owner' && owner'[f] == owner[f])
    && (forall f :: f in owner' && (owner'[f].Page? || owner'[f].Shared?) ==> f in owner && owner[f] == owner'[f])
  }

  lemma {:induction false} LedgerOthers(owner: Owners, owner': Owners, user: UserMap, lay: Layout, tables: map<nat, S.Table>, reg: seq<S.Region>)
    requires Ledger(owner, user, lay, tables, reg) && SameUsers(owner, owner')
    ensures Ledger(owner', user, lay, tables, reg)
  {
  }

  // ---- pmalloc: a region grows by one page at the heap pointer

  function WithNewRegion(p: Proc): Proc {
    Proc(p.heapVptr, [Region(p.heapVptr, 0, 0)] + p.regions)
  }

  function GrowFirst(p: Proc): Proc
    requires p.regions != []
  {
    Proc(p.heapVptr + PAGE_SIZE, p.regions[0 := Region(p.regions[0].virt, p.regions[0].phys, p.regions[0].pages + 1)])
  }

  lemma {:induction false} NewRegionInside(gs: seq<Region>, g: Region, v: nat)
    requires g.pages == 0
    ensures InRegions([g] + gs, v) <==> InRegions(gs, v)
  {
    if InRegions(gs, v) {
      var k :| 0 <= k < |gs| && Inside(gs[k], v);
      assert ([g] + gs)[k + 1] == gs[k];
    }
  }

  /** Two layouts that agree on which addresses lie in regions. */
  ghost predicate SameRegions(lay: Layout, lay': Layout) {
    && lay'.Keys == lay.Keys
    && (forall r :: r in lay ==> lay'[r].heapVptr >= lay[r].heapVptr)
    && (forall r, v: nat :: r in lay && UserAddr(v) ==> (InRegions(lay'[r].regions, v) <==> InRegions(lay[r].regions, v)))
  }

  lemma {:induction false} LedgerRelayout(owner: Owners, user: UserMap, lay: Layout, lay': Layout, tables: map<nat, S.Table>, reg: seq<S.Region>)
    requires Ledger(owner, user, lay, tables, reg) && SameRegions(lay, lay') && Layouts(lay')
    ensures Ledger(owner, user, lay', tables, reg)
  {
    hide InRegions, Layouts;
    forall f | f in owner && owner[f].Page?
      ensures var k := (owner[f].root, owner[f].virt);
              k in user && user[k] == f && k.0 in lay' && InRegions(lay'[k.0].regions, k.1)
    {
      assert UserAddr(owner[f].virt);
    }
  }

  lemma {:induction false} LedgerNewRegion(owner: Owners, user: UserMap, lay: Layout, tables: map<nat, S.Table>, reg: seq<S.Region>, r: nat)
    requires Ledger(owner, user, lay, tables, reg) && r in lay
    ensures Ledger(owner, user, lay[r := WithNewRegion(lay[r])], tables, reg)
  {
    var p, p' := lay[r], WithNewRegion(lay[r]);
    hide Ledger;
    forall v: nat ensures InRegions(p'.regions, v) <==> InRegions(p.regions, v) {
      NewRegionInside(p.regions, Region(p.heapVptr, 0, 0), v);
    }
    StackedNew(owner, user, lay, tables, reg, r);
    LedgerRelayout(owner, user, lay, lay[r := p'], tables, reg);
  }

  lemma {:induction false} StackedNew(owner: Owners, user: UserMap, lay: Layout, tables: map<nat, S.Table>, reg: seq<S.Region>, r: nat)
    requires Ledger(owner, user, lay, tables, reg) && r in lay
    ensures Layouts(lay[r := WithNewRegion(lay[r])])
  {
    var p, p' := lay[r], WithNewRegion(lay[r]);
    assert Stacked(p);
    assert forall k :: 0 < k < |p'.regions| ==> p'.regions[k] == p.regions[k - 1];
  }

  lemma {:induction false} GrowInside(p: Proc, v: nat)
    requires p.regions != [] && RegionEnd(p.regions[0]) == p.heapVptr && UserAddr(v) && p.heapVptr % PAGE_SIZE == 0
    ensures InRegions(GrowFirst(p).regions, v) <==> InRegions(p.regions, v) || v == p.heapVptr
  {
    var gs, gs' := p.regions, GrowFirst(p).regions;
    assert Inside(gs'[0], v) <==> Inside(gs[0], v) || v == p.heapVptr;
    hide Inside;
    if InRegions(gs, v) {
      var k :| 0 <= k < |gs| && Inside(gs[k], v);
      assert Inside(gs'[k], v);
    }
    if InRegions(gs', v) {
      var k :| 0 <= k < |gs'| && Inside(gs'[k], v);
      assert k > 0 ==> Inside(gs[k], v);
    }
  }

  /** The region being filled ends at the heap pointer, and there is room for one more page. */
  ghost predicate CanGrow(lay: Layout, r: nat) {
    && r in lay && lay[r].regions != [] && RegionEnd(lay[r].regions[0]) == lay[r].heapVptr
    && lay[r].heapVptr + PAGE_SIZE <= USER_END
  }

  lemma {:induction false} StackedGrow(p: Proc)
    requires Stacked(p) && p.regions != [] && RegionEnd(p.regions[0]) == p.heapVptr && p.heapVptr + PAGE_SIZE <= USER_END
    ensures Stacked(GrowFirst(p)) && RegionEnd(GrowFirst(p).regions[0]) == GrowFirst(p).heapVptr
  {
    var gs, gs' := p.regions, GrowFirst(p).regions;
    assert RegionEnd(gs'[0]) == RegionEnd(gs[0]) + PAGE_SIZE;
    assert forall k :: 0 < k < |gs'| ==> gs'[k] == gs[k];
  }

  /** A fresh private frame mapped at the heap pointer. */
  lemma {:induction false} LedgerAddPage(owner: Owners, user: UserMap, lay: Layout, tables: map<nat, S.Table>, reg: seq<S.Region>, r: nat, f: nat)
    requires Ledger(owner, user, lay, tables, reg) && CanGrow(lay, r) && f in owner && owner[f] == Free
    ensures var v := lay[r].heapVptr;
            && (r, v) !in user && UserAddr(v)
            && Ledger(owner[f := Page(r, v)], user[(r, v) := f], lay[r := GrowFirst(lay[r])], tables, reg)
            && CanGrow(lay[r := GrowFirst(lay[r])], r) == (v + 2 * PAGE_SIZE <= USER_END)
  {
    var v, lay' := lay[r].heapVptr, lay[r := GrowFirst(lay[r])];
    assert Stacked(lay[r]);
    StackedGrow(lay[r]);
    forall w: nat | UserAddr(w) ensures InRegions(lay'[r].regions, w) <==> InRegions(lay[r].regions, w) || w == v {
      GrowInside(lay[r], w);
    }
    AddPagePrivate(owner, user, lay, lay', r, f);
    AddPageShared(owner, user, tables, reg, r, v, f);
  }

  lemma {:induction false} AddPagePrivate(owner: Owners, user: UserMap, lay: Layout, lay': Layout, r: nat, f: nat)
    requires UserOwned(owner, user, lay) && PagesMapped(owner, user, lay) && RegionsBacked(owner, user, lay)
    requires r in lay && f in owner && owner[f] == Free && UserAddr(lay[r].heapVptr)
    requires r in lay' && lay' == lay[r := lay'[r]] && lay'[r].heapVptr > lay[r].heapVptr
    requires forall w: nat :: UserAddr(w) ==> (InRegions(lay'[r].regions, w) <==> InRegions(lay[r].regions, w) || w == lay[r].heapVptr)
    ensures var v := lay[r].heapVptr;
            && UserOwned(owner[f := Page(r, v)], user[(r, v) := f], lay')
            && PagesMapped(owner[f := Page(r, v)], user[(r, v) := f], lay')
            && RegionsBacked(owner[f := Page(r, v)], user[(r, v) := f], lay')
  {
    hide InRegions;
  }

  lemma {:induction false} AddPageShared(owner: Owners, user: UserMap, tables: map<nat, S.Table>, reg: seq<S.Region>, r: nat, v: nat, f: nat)
    requires SharedHeld(owner, user, tables) && HandlesMapped(owner, user, tables) && RegionFrames(owner, reg)
    requires f in owner && owner[f] == Free && (r, v) !in user
    requires forall k :: k in user ==> user[k] != f
    ensures var owner', user' := owner[f := Page(r, v)], user[(r, v) := f];
            SharedHeld(owner', user', tables) && HandlesMapped(owner', user', tables) && RegionFrames(owner', reg)
  {
  }

  // ---- pfree: a region shrinks from below, then leaves the list

  predicate HasPage(lay: Layout, r: nat, k: nat) {
    r in lay && k < |lay[r].regions| && lay[r].regions[k].pages > 0
  }

  function ShrinkAt(p: Proc, k: nat): Proc
    requires k < |p.regions| && p.regions[k].pages > 0
  {
    var g := p.regions[k];
    p.(regions := p.regions[k := Region(g.virt + PAGE_SIZE, g.phys, g.pages - 1)])
  }

  lemma {:induction false} ShrinkInside(p: Proc, k: nat, v: nat)
    requires Stacked(p) && k < |p.regions| && p.regions[k].pages > 0 && UserAddr(v)
    ensures InRegions(ShrinkAt(p, k).regions, v) <==> InRegions(p.regions, v) && v != p.regions[k].virt
  {
    var gs, gs' := p.regions, ShrinkAt(p, k).regions;
    assert Inside(gs'[k], v) <==> Inside(gs[k], v) && v != gs[k].virt;
    Apart(p, k, v);
    hide Inside, Stacked;
    if InRegions(gs, v) && v != gs[k].virt {
      var j :| 0 <= j < |gs| && Inside(gs[j], v);
      assert Inside(gs'[j], v);
    }
    if InRegions(gs', v) {
      var j :| 0 <= j < |gs'| && Inside(gs'[j], v);
      assert Inside(gs[j], v);
    }
  }

  /** No other region covers the start of region `k`. */
  lemma {:induction false} Apart(p: Proc, k: nat, v: nat)
    requires Stacked(p) && k < |p.regions| && p.regions[k].pages > 0
    ensures forall j :: 0 <= j < |p.regions| && j != k && Inside(p.regions[j], v) ==> v != p.regions[k].virt
  {
    forall j | 0 <= j < |p.regions| && j != k && Inside(p.regions[j], v) ensures v != p.regions[k].virt {
      if j < k { assert RegionEnd(p.regions[k]) <= p.regions[j].virt; }
      if j > k { assert RegionEnd(p.regions[j]) <= p.regions[k].virt; }
    }
  }

  lemma {:induction false} StackedShrink(p: Proc, k: nat)
    requires Stacked(p) && k < |p.regions| && p.regions[k].pages > 0
    ensures Stacked(ShrinkAt(p, k))
  {
    var gs, gs' := p.regions, ShrinkAt(p, k).regions;
    assert RegionEnd(gs'[k]) == RegionEnd(gs[k]);
    assert forall j :: 0 <= j < |gs'| && j != k ==> gs'[j] == gs[j];
  }

  /** The first page of region `k` is mapped to a private frame; giving it back keeps the ledger. */
  lemma {:induction false} LedgerRemovePage(owner: Owners, user: UserMap, lay: Layout, tables: map<nat, S.Table>, reg: seq<S.Region>, r: nat, k: nat)
    requires Ledger(owner, user, lay, tables, reg) && HasPage(lay, r, k)
    ensures var v := lay[r].regions[k].virt;
            && UserAddr(v) && (r, v) in user && user[(r, v)] in owner && owner[user[(r, v)]] == Page(r, v)
            && Ledger(owner[user[(r, v)] := Free], user - {(r, v)}, lay[r := ShrinkAt(lay[r], k)], tables, reg)
  {
    var v, lay' := lay[r].regions[k].virt, lay[r := ShrinkAt(lay[r], k)];
    assert Stacked(lay[r]);
    assert RegionEnd(lay[r].regions[k]) <= lay[r].heapVptr;
    assert InRegions(lay[r].regions, v);
    StackedShrink(lay[r], k);
    forall w: nat | UserAddr(w) ensures InRegions(lay'[r].regions, w) <==> InRegions(lay[r].regions, w) && w != v {
      ShrinkInside(lay[r], k, w);
    }
    RemovePagePrivate(owner, user, lay, lay', r, v);
    RemovePageShared(owner, user, tables, reg, r, v);
  }

  lemma {:induction false} RemovePagePrivate(owner: Owners, user: UserMap, lay: Layout, lay': Layout, r: nat, v: nat)
    requires UserOwned(owner, user, lay) && PagesMapped(owner, user, lay) && RegionsBacked(owner, user, lay)
    requires (r, v) in user && user[(r, v)] in owner && owner[user[(r, v)]] == Page(r, v)
    requires r in lay && r in lay' && lay' == lay[r := lay'[r]] && lay'[r].heapVptr == lay[r].heapVptr
    requires forall w: nat :: UserAddr(w) ==> (InRegions(lay'[r].regions, w) <==> InRegions(lay[r].regions, w) && w != v)
    ensures var owner', user' := owner[user[(r, v)] := Free], user - {(r, v)};
            UserOwned(owner', user', lay') && PagesMapped(owner', user', lay') && RegionsBacked(owner', user', lay')
  {
    hide InRegions;
  }

  lemma {:induction false} RemovePageShared(owner: Owners, user: UserMap, tables: map<nat, S.Table>, reg: seq<S.Region>, r: nat, v: nat)
    requires SharedHeld(owner, user, tables) && HandlesMapped(owner, user, tables) && RegionFrames(owner, reg)
    requires (r, v) in user && user[(r, v)] in owner && owner[user[(r, v)]] == Page(r, v)
    ensures var owner', user' := owner[user[(r, v)] := Free], user - {(r, v)};
            SharedHeld(owner', user', tables) && HandlesMapped(owner', user', tables) && RegionFrames(owner', reg)
  {
  }

  function WithoutRegion(p: Proc, k: nat): Proc
    requires k < |p.regions|
  {
    p.(regions := p.regions[..k] + p.regions[k + 1..])
  }

  lemma {:induction false} EmptyRegionInside(gs: seq<Region>, k: nat, v: nat)
    requires k < |gs| && gs[k].pages == 0
    ensures InRegions(gs[..k] + gs[k + 1..], v) <==> InRegions(gs, v)
  {
    var gs' := gs[..k] + gs[k + 1..];
    if InRegions(gs, v) {
      var j :| 0 <= j < |gs| && Inside(gs[j], v);
      assert gs'[if j < k then j else j - 1] == gs[j];
    }
    if InRegions(gs', v) {
      var j :| 0 <= j < |gs'| && Inside(gs'[j], v);
      assert gs[if j < k then j else j + 1] == gs'[j];
    }
  }

  lemma {:induction false} LedgerDropRegion(owner: Owners, user: UserMap, lay: Layout, tables: map<nat, S.Table>, reg: seq<S.Region>, r: nat, k: nat)
    requires Ledger(owner, user, lay, tables, reg) && r in lay && k < |lay[r].regions| && lay[r].regions[k].pages == 0
    ensures Ledger(owner, user, lay[r := WithoutRegion(lay[r], k)], tables, reg)
  {
    var gs := lay[r].regions;
    hide Ledger;
    forall v: nat ensures InRegions(gs[..k] + gs[k + 1..], v) <==> InRegions(gs, v) { EmptyRegionInside(gs, k, v); }
    StackedDrop(owner, user, lay, tables, reg, r, k);
    LedgerRelayout(owner, user, lay, lay[r := WithoutRegion(lay[r], k)], tables, reg);
  }

  lemma {:induction false} StackedDrop(owner: Owners, user: UserMap, lay: Layout, tables: map<nat, S.Table>, reg: seq<S.Region>, r: nat, k: nat)
    requires Ledger(owner, user, lay, tables, reg) && r in lay && k < |lay[r].regions|
    ensures Layouts(lay[r := WithoutRegion(lay[r], k)])
  {
    var gs := lay[r].regions;
    assert Stacked(lay[r]);
    var gs' := gs[..k] + gs[k + 1..];
    assert forall j :: 0 <= j < |gs'| ==> gs'[j] == gs[if j < k then j else j + 1];
  }

  // ---- shared regions

  lemma {:induction false} LedgerNewShared(owner: Owners, user: UserMap, lay: Layout, tables: map<nat, S.Table>, reg: seq<S.Region>, f: nat, g: S.Region)
    requires Ledger(owner, user, lay, tables, reg) && f in owner && owner[f] == Free
    requires g.phys == f && g.pages == 1 && forall i :: 0 <= i < |reg| ==> reg[i].id != g.id
    ensures Ledger(owner[f := Shared(g.id)], user, lay, tables, [g] + reg)
  {
    var reg' := [g] + reg;
    assert reg'[1..] == reg;
    forall id: nat | id != g.id ensures S.Where(reg', id) == 1 + S.Where(reg, id) {}
    assert forall i :: 0 < i < |reg'| ==> reg'[i] == reg[i - 1];
    NewSharedUsers(owner, user, lay, tables, f, g.id);
  }

  lemma {:induction false} NewSharedUsers(owner: Owners, user: UserMap, lay: Layout, tables: map<nat, S.Table>, f: nat, id: nat)
    requires UserOwned(owner, user, lay) && PagesMapped(owner, user, lay) && RegionsBacked(owner, user, lay)
    requires SharedHeld(owner, user, tables) && HandlesMapped(owner, user, tables) && f in owner && owner[f] == Free
    ensures var owner' := owner[f := Shared(id)];
            && UserOwned(owner', user, lay) && PagesMapped(owner', user, lay) && RegionsBacked(owner', user, lay)
            && SharedHeld(owner', user, tables) && HandlesMapped(owner', user, tables)
  {
  }

  /** `s'` is `s` with room made and an active entry put in a slot that was not active. */
  ghost predicate AddsHandle(s: seq<S.Entry>, s': seq<S.Entry>, slot: nat, e: S.Entry) {
    && |s| <= |s'| && slot < |s'| && e.active && s'[slot] == e && (slot < |s| ==> !s[slot].active)
    && forall h :: 0 <= h < |s'| && h != slot ==> s'[h] == if h < |s| then s[h] else S.NO_ENTRY
  }

  lemma {:induction false} AddsHandleAt(s: seq<S.Entry>, s': seq<S.Entry>, slot: nat, e: S.Entry, id: nat, v: nat)
    requires AddsHandle(s, s', slot, e)
    ensures HandleAt(s, id, v) ==> HandleAt(s', id, v)
    ensures HandleAt(s', e.id, e.virt)
  {
    if HandleAt(s, id, v) {
      var h :| 0 <= h < |s| && S.Names(s[h], id) && s[h].virt == v;
      assert s'[h] == s[h];
    }
  }

  function Advance(p: Proc): Proc {
    p.(heapVptr := p.heapVptr + PAGE_SIZE)
  }

  /** A shared frame mapped at the heap pointer through a new handle. */
  lemma {:induction false} LedgerAttach(owner: Owners, user: UserMap, lay: Layout, tables: map<nat, S.Table>, reg: seq<S.Region>,
                     r: nat, slot: nat, e: S.Entry, t: S.Table, k: nat)
    requires Ledger(owner, user, lay, tables, reg) && r in lay && lay[r].heapVptr + PAGE_SIZE <= USER_END
    requires k < |reg| && reg[k].id == e.id && e.virt == lay[r].heapVptr
    requires AddsHandle(tables[r].slots, t.slots, slot, e)
    ensures var v := lay[r].heapVptr;
            && (r, v) !in user && UserAddr(v) && reg[k].phys in owner && owner[reg[k].phys] == Shared(e.id)
            && Ledger(owner, user[(r, v) := reg[k].phys], lay[r := Advance(lay[r])], tables[r := t], S.Bumped(reg, k))
  {
    hide UserOwned, PagesMapped, RegionsBacked, SharedHeld, HandlesMapped;
    var v, lay', reg', user' := lay[r].heapVptr, lay[r := Advance(lay[r])], S.Bumped(reg, k), user[(r, lay[r].heapVptr) := reg[k].phys];
    assert Stacked(lay[r]);
    TopUnused(owner, user, lay, r);
    forall id ensures S.Where(reg', id) == S.Where(reg, id) { S.WhereUpdate(reg, k, reg[k].(refs := reg[k].refs + 1), id); }
    AttachPrivate(owner, user, lay, r, v, reg[k].phys, e.id);
    AttachShared(owner, user, tables, r, slot, e, t, reg[k].phys);
  }

  /** Nothing is mapped at the heap pointer yet. */
  lemma {:induction false} TopUnused(owner: Owners, user: UserMap, lay: Layout, r: nat)
    requires UserOwned(owner, user, lay) && Layouts(lay) && r in lay && lay[r].heapVptr + PAGE_SIZE <= USER_END
    ensures (r, lay[r].heapVptr) !in user && UserAddr(lay[r].heapVptr)
  {
  }

  lemma {:induction false} AttachPrivate(owner: Owners, user: UserMap, lay: Layout, r: nat, v: nat, f: nat, id: nat)
    requires UserOwned(owner, user, lay) && PagesMapped(owner, user, lay) && RegionsBacked(owner, user, lay)
    requires r in lay && v == lay[r].heapVptr && UserAddr(v) && f in owner && owner[f] == Shared(id)
    ensures var lay', user' := lay[r := Advance(lay[r])], user[(r, v) := f];
            UserOwned(owner, user', lay') && PagesMapped(owner, user', lay') && RegionsBacked(owner, user', lay')
  {
  }

  lemma {:induction false} AttachShared(owner: Owners, user: UserMap, tables: map<nat, S.Table>, r: nat, slot: nat, e: S.Entry, t: S.Table, f: nat)
    requires SharedHeld(owner, user, tables) && HandlesMapped(owner, user, tables)
    requires r in tables && AddsHandle(tables[r].slots, t.slots, slot, e) && (r, e.virt) !in user
    requires f in owner && owner[f] == Shared(e.id)
    ensures SharedHeld(owner, user[(r, e.virt) := f], tables[r := t])
    ensures HandlesMapped(owner, user[(r, e.virt) := f], tables[r := t])
  {
    forall id, v ensures HandleAt(tables[r].slots, id, v) ==> HandleAt(t.slots, id, v) {
      AddsHandleAt(tables[r].slots, t.slots, slot, e, id, v);
    }
    AddsHandleAt(tables[r].slots, t.slots, slot, e, e.id, e.virt);
    hide HandleAt;
  }

  // ---- detaching

  /** `s'` is `s` with slot `h` inactive. */
  ghost predicate DropsHandle(s: seq<S.Entry>, s': seq<S.Entry>, h: nat) {
    h < |s| && s[h].active && s' == s[h := S.NO_ENTRY]
  }

  lemma {:induction false} DropsHandleAt(s: seq<S.Entry>, s': seq<S.Entry>, h: nat, id: nat, v: nat)
    requires DropsHandle(s, s', h)
    ensures HandleAt(s, id, v) && (id != s[h].id || v != s[h].virt) ==> HandleAt(s', id, v)
    ensures HandleAt(s, s[h].id, s[h].virt)
  {
    if HandleAt(s, id, v) && (id != s[h].id || v != s[h].virt) {
      var g :| 0 <= g < |s| && S.Names(s[g], id) && s[g].virt == v;
      assert s'[g] == s[g];
    }
  }

  /** The handle is the only one, anywhere, that names its region. */
  ghost predicate OnlyOne(tables: map<nat, S.Table>, r: nat, h: nat)
    requires r in tables && h < |tables[r].slots|
  {
    forall p, g :: p in tables && 0 <= g < |tables[p].slots| && S.Names(tables[p].slots[g], tables[r].slots[h].id) ==> p == r && g == h
  }

  function ReleasedIf(owner: Owners, last: bool, f: nat): Owners {
    if last then owner[f := Free] else owner
  }

  /** Unmapping a handle keeps the ledger; the frame becomes free exactly when no handle is left. */
  lemma {:induction false} LedgerDetach(owner: Owners, user: UserMap, lay: Layout, tables: map<nat, S.Table>, reg: seq<S.Region>,
                     r: nat, h: nat, t: S.Table, k: nat)
    requires Ledger(owner, user, lay, tables, reg) && r in tables && DropsHandle(tables[r].slots, t.slots, h)
    requires S.OneEach(tables[r].slots)
    requires k < |reg| && reg[k].id == tables[r].slots[h].id && k == S.Where(reg, reg[k].id)
    requires forall i, j :: 0 <= i < j < |reg| ==> reg[i].id != reg[j].id
    requires reg[k].refs <= 1 ==> OnlyOne(tables, r, h)
    ensures var v := tables[r].slots[h].virt;
            && (r, v) in user && user[(r, v)] == reg[k].phys && UserAddr(v) && r in lay
            && reg[k].phys in owner && owner[reg[k].phys] == Shared(reg[k].id)
            && Ledger(ReleasedIf(owner, reg[k].refs <= 1, reg[k].phys), user - {(r, v)}, lay, tables[r := t], S.Dropped(reg, k))
  {
    var v, f, last := tables[r].slots[h].virt, reg[k].phys, reg[k].refs <= 1;
    var owner', user' := ReleasedIf(owner, last, f), user - {(r, v)};
    assert owner[user[(r, v)]] == Shared(reg[k].id);
    DetachUsers(owner, user, tables, r, h, f);
    DetachPrivate(owner, user, lay, r, v, f, last);
    DetachShared(owner, user, tables, r, h, t, f, last);
    DetachFrames(owner, reg, k, last);
  }

  /** When the handle is the only one, its page is the only one that maps the frame. */
  lemma {:induction false} DetachUsers(owner: Owners, user: UserMap, tables: map<nat, S.Table>, r: nat, h: nat, f: nat)
    requires SharedHeld(owner, user, tables) && r in tables && h < |tables[r].slots|
    requires f in owner && owner[f] == Shared(tables[r].slots[h].id)
    ensures OnlyOne(tables, r, h) ==> forall k :: k in user && user[k] == f ==> k == (r, tables[r].slots[h].virt)
  {
  }

  lemma {:induction false} DetachPrivate(owner: Owners, user: UserMap, lay: Layout, r: nat, v: nat, f: nat, last: bool)
    requires UserOwned(owner, user, lay) && PagesMapped(owner, user, lay) && RegionsBacked(owner, user, lay)
    requires f in owner && owner[f].Shared? && (r, v) in user && user[(r, v)] == f
    requires last ==> forall k :: k in user && user[k] == f ==> k == (r, v)
    ensures var owner', user' := ReleasedIf(owner, last, f), user - {(r, v)};
            UserOwned(owner', user', lay) && PagesMapped(owner', user', lay) && RegionsBacked(owner', user', lay)
  {
  }

  lemma {:induction false} DetachShared(owner: Owners, user: UserMap, tables: map<nat, S.Table>, r: nat, h: nat, t: S.Table, f: nat, last: bool)
    requires SharedHeld(owner, user, tables) && HandlesMapped(owner, user, tables)
    requires r in tables && DropsHandle(tables[r].slots, t.slots, h) && S.OneEach(tables[r].slots)
    requires f in owner && owner[f] == Shared(tables[r].slots[h].id)
    requires last ==> OnlyOne(tables, r, h)
    requires last ==> forall k :: k in user && user[k] == f ==> k == (r, tables[r].slots[h].virt)
    ensures var owner', user' := ReleasedIf(owner, last, f), user - {(r, tables[r].slots[h].virt)};
            SharedHeld(owner', user', tables[r := t]) && HandlesMapped(owner', user', tables[r := t])
  {
    var s, v := tables[r].slots, tables[r].slots[h].virt;
    var owner', user' := ReleasedIf(owner, last, f), user - {(r, v)};
    forall id, w ensures HandleAt(s, id, w) && (id != s[h].id || w != v) ==> HandleAt(t.slots, id, w) {
      DropsHandleAt(s, t.slots, h, id, w);
    }
    assert HandlesMapped(owner', user', tables[r := t]) by {
      forall p, g | p in tables && 0 <= g < |tables[p].slots| && tables[p].slots[g].active && (p != r || g != h)
        ensures var q := (p, tables[p].slots[g].virt);
                q in user' && user'[q] in owner' && owner'[user'[q]] == Shared(tables[p].slots[g].id)
      {
        assert user[(p, tables[p].slots[g].virt)] in owner;
      }
    }
    hide HandleAt;
  }

  lemma {:induction false} DetachFrames(owner: Owners, reg: seq<S.Region>, k: nat, last: bool)
    requires RegionFrames(owner, reg) && k < |reg| && k == S.Where(reg, reg[k].id) && (last <==> reg[k].refs <= 1)
    requires forall i, j :: 0 <= i < j < |reg| ==> reg[i].id != reg[j].id
    ensures RegionFrames(ReleasedIf(owner, last, reg[k].phys), S.Dropped(reg, k))
  {
    hide S.Where;
    if last {
      LastFrame(owner, reg, k);
    } else {
      var r := reg[k].(refs := reg[k].refs - 1);
      forall id ensures S.Where(reg[k := r], id) == S.Where(reg, id) { S.WhereUpdate(reg, k, r, id); }
    }
  }

  lemma {:induction false} LastFrame(owner: Owners, reg: seq<S.Region>, k: nat)
    requires RegionFrames(owner, reg) && k < |reg| && k == S.Where(reg, reg[k].id)
    requires forall i, j :: 0 <= i < j < |reg| ==> reg[i].id != reg[j].id
    ensures RegionFrames(owner[reg[k].phys := Free], reg[..k] + reg[k + 1..])
  {
    hide S.Where;
    var reg', owner' := reg[..k] + reg[k + 1..], owner[reg[k].phys := Free];
    assert forall i :: 0 <= i < |reg'| ==> reg'[i] == reg[if i < k then i else i + 1];
    forall f | f in owner' && owner'[f].Shared? ensures var w := S.Where(reg', owner'[f].id); w < |reg'| && reg'[w].phys == f {
      S.WhereRemoved(reg, k, owner[f].id);
    }
  }

  // ---- processes come and go

  lemma {:induction false} LedgerNewProcess(owner: Owners, user: UserMap, lay: Layout, tables: map<nat, S.Table>, reg: seq<S.Region>, r: nat, p: Proc)
    requires Ledger(owner, user, lay, tables, reg) && r !in lay && p.regions == [] && Stacked(p)
    ensures Ledger(owner, user, lay[r := p], tables[r := S.Table([], 0)], reg)
  {
    forall v ensures !InRegions([], v) {}
    hide RegionFrames, HandleAt, InRegions;
  }

  /** Once its regions and handles are gone, nothing in the ledger speaks of the process. */
  lemma {:induction false} LedgerEmptied(owner: Owners, user: UserMap, lay: Layout, tables: map<nat, S.Table>, reg: seq<S.Region>, r: nat)
    requires Ledger(owner, user, lay, tables, reg) && r in lay && lay[r].regions == []
    requires tables[r].slots == []
    ensures forall v: nat :: (r, v) !in user
    ensures forall f :: f in owner && owner[f].Page? ==> owner[f].root != r
    ensures Ledger(owner, user, lay - {r}, tables - {r}, reg)
  {
    forall v: nat ensures (r, v) !in user {
      NotMapped(owner, user, lay, tables, reg, r, v);
    }
  }

  lemma {:induction false} NotMapped(owner: Owners, user: UserMap, lay: Layout, tables: map<nat, S.Table>, reg: seq<S.Region>, r: nat, v: nat)
    requires Ledger(owner, user, lay, tables, reg) && r in lay && lay[r].regions == [] && tables[r].slots == []
    ensures (r, v) !in user
  {
    assert !InRegions(lay[r].regions, v);
    assert (r, v) in user && owner[user[(r, v)]].Shared? ==> HandleAt(tables[r].slots, owner[user[(r, v)]].id, v);
  }
}
