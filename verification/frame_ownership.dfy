/** The machine's frames: the physical allocator, the page-table code, `pmalloc` and `pfree`, single-page shared
    regions, and the birth and death of processes (src/kernel/kern_vmm.c, kern_sched.c, kern_ipc.c). */
module FrameOwnership {
  import opened Options
  import opened Paging
  import opened FrameLedger
  import opened AddressSpaces
  import opened Teardown
  import S = SharedMemory

  /** The tables a walk for `p` goes through, below the top table. */
  ghost function PathSlots(root: nat, p: VPage): set<Slot> {
    {Slot(root, Pdpt(p.a)), Slot(root, Pd(p.a, p.b)), Slot(root, Pt(p.a, p.b, p.c))}
  }

  /** How many of them are missing from `have`. */
  ghost function Missing(have: set<Slot>, root: nat, p: VPage): (n: nat)
    ensures n <= 3
  {
    (if Slot(root, Pdpt(p.a)) in have then 0 else 1) + (if Slot(root, Pd(p.a, p.b)) in have then 0 else 1)
    + (if Slot(root, Pt(p.a, p.b, p.c)) in have then 0 else 1)
  }

  /** Frames change hands only from the free list to tables. */
  ghost predicate OnlyTables(owner: Owners, owner': Owners) {
    && owner'.Keys == owner.Keys
    && forall f :: f in owner ==> owner'[f] == owner[f] || (owner[f] == Free && owner'[f].Table?)
  }

  ghost predicate Extends(tab: Tables, tab': Tables, more: set<Slot>) {
    tab'.Keys == tab.Keys + more && forall s :: s in tab ==> tab'[s] == tab[s]
  }

  /** The trees gain the tables on the way to `p` that were missing, each from the front of the free list. */
  ghost predicate Grew(tab: Tables, tab': Tables, free: seq<nat>, free': seq<nat>, owner: Owners, owner': Owners, root: nat, p: VPage) {
    var n := Missing(tab.Keys, root, p);
    Extends(tab, tab', PathSlots(root, p)) && n <= |free| && free' == free[n..] && OnlyTables(owner, owner')
  }

  /** `c` was there, or it is new and took one frame. */
  ghost predicate GrewBy(tab: Tables, tab': Tables, free: seq<nat>, free': seq<nat>, owner: Owners, owner': Owners, c: Slot) {
    && Extends(tab, tab', {c}) && OnlyTables(owner, owner')
    && if c in tab then free' == free else free != [] && free' == free[1..]
  }

  lemma {:induction false} GrewAll(tab0: Tables, tab1: Tables, tab2: Tables, tab3: Tables, free0: seq<nat>, free1: seq<nat>, free2: seq<nat>, free3: seq<nat>,
                owner0: Owners, owner1: Owners, owner2: Owners, owner3: Owners, root: nat, p: VPage)
    requires GrewBy(tab0, tab1, free0, free1, owner0, owner1, Slot(root, Pdpt(p.a)))
    requires GrewBy(tab1, tab2, free1, free2, owner1, owner2, Slot(root, Pd(p.a, p.b)))
    requires GrewBy(tab2, tab3, free2, free3, owner2, owner3, Slot(root, Pt(p.a, p.b, p.c)))
    ensures Grew(tab0, tab3, free0, free3, owner0, owner3, root, p)
  {
    var c1, c2, c3 := Slot(root, Pdpt(p.a)), Slot(root, Pd(p.a, p.b)), Slot(root, Pt(p.a, p.b, p.c));
    ExtendsAll(tab0, tab1, tab2, tab3, c1, c2, c3);
    assert c2 in tab1 <==> c2 in tab0;
    assert c3 in tab2 <==> c3 in tab0;
    GrewFree(free0, free1, free2, free3, c1 in tab0, c2 in tab0, c3 in tab0);
    GrewOwners(owner0, owner1, owner2, owner3);
    hide OnlyTables, Extends, GrewBy;
  }

  lemma {:induction false} ExtendsAll(tab0: Tables, tab1: Tables, tab2: Tables, tab3: Tables, c1: Slot, c2: Slot, c3: Slot)
    requires Extends(tab0, tab1, {c1}) && Extends(tab1, tab2, {c2}) && Extends(tab2, tab3, {c3})
    ensures Extends(tab0, tab3, {c1, c2, c3})
  {
    assert {c1, c2, c3} == {c1} + {c2} + {c3};
  }

  lemma {:induction false} GrewOwners(owner0: Owners, owner1: Owners, owner2: Owners, owner3: Owners)
    requires OnlyTables(owner0, owner1) && OnlyTables(owner1, owner2) && OnlyTables(owner2, owner3)
    ensures OnlyTables(owner0, owner3)
  {
  }

  lemma {:induction false} GrewFree(free0: seq<nat>, free1: seq<nat>, free2: seq<nat>, free3: seq<nat>, a: bool, b: bool, c: bool)
    requires if a then free1 == free0 else free0 != [] && free1 == free0[1..]
    requires if b then free2 == free1 else free1 != [] && free2 == free1[1..]
    requires if c then free3 == free2 else free2 != [] && free3 == free2[1..]
    ensures var n := (if a then 0 else 1) + (if b then 0 else 1) + (if c then 0 else 1); n <= |free0| && free3 == free0[n..]
  {
  }

  /** The frames that mapping `n` fresh pages from `v` on takes: the pages, and the tables missing from `have`. */
  ghost function FramesFor(have: set<Slot>, root: nat, v: nat, n: nat): nat
    decreases n
  {
    if n == 0 then 0
    else 1 + Missing(have, root, PageOf(v)) + FramesFor(have + PathSlots(root, PageOf(v)), root, v + PAGE_SIZE, n - 1)
  }

  /** The page is mapped for its process to read and write: present, writable and open to the user. */
  ghost predicate OpenPage(mem: Memory, r: nat, v: nat) {
    Walk(mem, r, PageOf(v)).Some? && Walk(mem, r, PageOf(v)).value.pte % 8 == 7
  }

  /** Every walk that does not lead to one of the `n` pages of `r` at `v` is as it was. */
  ghost predicate OtherWalks(mem: Memory, mem': Memory, tab: Tables, kernel: nat, r: nat, v: nat, n: nat) {
    forall q, w: VPage :: Slot(q, Pml4) in tab && Tracked(Slot(q, Pml4), w.a, kernel) && w.b < 512 && w.c < 512 && w.d < 512 ==>
      (q != r || forall i: nat :: i < n ==> w != PageOf(v + i * PAGE_SIZE)) ==> Walk(mem', q, w) == Walk(mem, q, w)
  }

  /** The `n` pages of `r` at `v`, and the tables made for them, are open to the process; no other walk changed. */
  ghost predicate Granted(mem: Memory, tab: Tables, mem': Memory, tab': Tables, kernel: nat, r: nat, v: nat, n: nat) {
    && Pointers(mem, tab, mem', tab', 7) && OtherWalks(mem, mem', tab, kernel, r, v, n)
    && forall i: nat :: i < n ==> OpenPage(mem', r, v + i * PAGE_SIZE)
  }

  /** The frame recorded for a region of `n` pages at `v`: the one mapped at its start. */
  ghost function FirstFrame(user: UserMap, r: nat, v: nat, n: nat): nat {
    if n > 0 && (r, v) in user then user[(r, v)] else 0
  }

  predicate InRange(v: nat, lo: nat, hi: nat) {
    lo <= v < hi && UserAddr(v)
  }

  predicate PageIn(o: Owner, r: nat, lo: nat, hi: nat) {
    o.Page? && o.root == r && InRange(o.virt, lo, hi)
  }

  /** Frames change hands only from the free list, to tables and to the pages of `r` in `[lo, hi)`. */
  ghost predicate Took(owner: Owners, owner': Owners, r: nat, lo: nat, hi: nat) {
    && owner'.Keys == owner.Keys
    && forall f :: f in owner && owner'[f] != owner[f] ==> owner[f] == Free && (owner'[f].Table? || PageIn(owner'[f], r, lo, hi))
  }

  /** Exactly the pages of `r` in `[lo, hi)` are newly mapped. */
  ghost predicate Gained(user: UserMap, user': UserMap, r: nat, lo: nat, hi: nat) {
    && (forall k :: k in user' <==> k in user || (k.0 == r && InRange(k.1, lo, hi)))
    && (forall k :: k in user ==> user'[k] == user[k])
  }

  /** Exactly the frames private to the pages of `r` in `[lo, hi)` become free. */
  ghost predicate Gave(owner: Owners, owner': Owners, r: nat, lo: nat, hi: nat) {
    && owner'.Keys == owner.Keys
    && forall f :: f in owner ==>
         owner'[f] == if PageIn(owner[f], r, lo, hi) then Free else owner[f]
  }

  /** Exactly the pages of `r` in `[lo, hi)` are no longer mapped. */
  ghost predicate Lost(user: UserMap, user': UserMap, r: nat, lo: nat, hi: nat) {
    && (forall k :: k in user' <==> k in user && !(k.0 == r && InRange(k.1, lo, hi)))
    && (forall k :: k in user' ==> user'[k] == user[k])
  }

  ghost function GrownBy(p: Proc, i: nat): Proc {
    Proc(p.heapVptr + i * PAGE_SIZE, [Region(p.heapVptr, 0, i)] + p.regions)
  }

  ghost function ShrunkBy(p: Proc, k: nat, i: nat): Proc
    requires k < |p.regions| && i <= p.regions[k].pages
  {
    var g := p.regions[k];
    p.(regions := p.regions[k := Region(g.virt + i * PAGE_SIZE, g.phys, g.pages - i)])
  }

  /** The pages of an allocation: `(size + PAGE_SIZE - 1) / PAGE_SIZE` in 64-bit arithmetic. */
  function PagesFor(size: nat): nat {
    (size + PAGE_SIZE - 1) % 0x1_0000_0000_0000_0000 / PAGE_SIZE
  }

  /** The pages cover the request exactly when rounding it up does not wrap around. */
  lemma {:induction false} PagesCover(size: nat)
    requires size < 0x1_0000_0000_0000_0000
    ensures PagesFor(size) * PAGE_SIZE >= size <==> size <= 0x1_0000_0000_0000_0000 - PAGE_SIZE || size == 0
    ensures 0 < size <= 0x1_0000_0000_0000_0000 - PAGE_SIZE ==> (PagesFor(size) - 1) * PAGE_SIZE < size
    ensures size > 0x1_0000_0000_0000_0000 - PAGE_SIZE ==> PagesFor(size) == 0
  {
  }

  /** `shmem_attach_proc` makes a new handle: the region exists, is not empty, and the process has none yet. */
  ghost predicate AttachesNew(reg: seq<S.Region>, slots: seq<S.Entry>, id: nat) {
    var k := S.Where(reg, id);
    id != 0 && k < |reg| && reg[k].pages != 0 && reg[k].phys != 0 && S.HandleOf(slots, id) == |slots|
  }

  /** The process holds a handle to the region among its first `n` slots. */
  ghost predicate HoldsFirst(slots: seq<S.Entry>, n: nat, id: nat) {
    exists h :: 0 <= h < |slots| && h < n && S.Names(slots[h], id)
  }

  ghost predicate HeldElsewhere(tables: map<nat, S.Table>, r: nat, id: nat) {
    exists p :: p in tables && p != r && HoldsFirst(tables[p].slots, |tables[p].slots|, id)
  }

  ghost predicate Frees(o: Owner, tables: map<nat, S.Table>, r: nat, n: nat)
    requires r in tables
  {
    o.Shared? && HoldsFirst(tables[r].slots, n, o.id) && !HeldElsewhere(tables, r, o.id)
  }

  /** After the first `n` handles of `r` are given up, the shared frames that no one else holds are free. */
  ghost predicate LetGo(owner: Owners, owner': Owners, tables: map<nat, S.Table>, r: nat, n: nat)
    requires r in tables
  {
    && owner'.Keys == owner.Keys
    && forall f :: f in owner ==> owner'[f] == if Frees(owner[f], tables, r, n) then Free else owner[f]
  }

  /** The other processes' pages stay mapped as they were. */
  ghost predicate OthersKept(user: UserMap, user': UserMap, r: nat) {
    && (forall k :: k in user' ==> k in user && user'[k] == user[k])
    && (forall k :: k in user && k.0 != r ==> k in user')
  }

  /** Giving up slot `h` frees the frame of its region exactly when no other handle, of any process, names it. */
  ghost predicate LetGoOne(owner: Owners, owner': Owners, tables: map<nat, S.Table>, r: nat, h: nat)
    requires r in tables && h < |tables[r].slots|
  {
    && owner'.Keys == owner.Keys
    && forall f :: f in owner ==>
         owner'[f] == if owner[f] == Shared(tables[r].slots[h].id) && OnlyOne(tables, r, h) then Free else owner[f]
  }

  /** The handle tables after the first `n` handles of `r` are given up. */
  ghost predicate GaveUp(tables: map<nat, S.Table>, tables': map<nat, S.Table>, r: nat, n: nat) {
    && tables'.Keys == tables.Keys && (forall p :: p in tables && p != r ==> tables'[p] == tables[p])
    && r in tables && |tables'[r].slots| == |tables[r].slots|
    && (forall h :: 0 <= h < |tables[r].slots| && h < n ==> !tables'[r].slots[h].active)
    && (forall h :: n <= h < |tables[r].slots| ==> tables'[r].slots[h] == tables[r].slots[h])
  }

  const FIRST_HEAP_VPTR: nat := 0x100_0000

  /** Some of the pages of `r` are free, nothing else changed hands. */
  ghost predicate PagesGone(owner: Owners, owner': Owners, r: nat) {
    && owner'.Keys == owner.Keys
    && forall f :: f in owner ==> owner'[f] == owner[f] || (owner[f].Page? && owner[f].root == r && owner'[f] == Free)
  }

  /** What `process_exit` gives back: the process's private pages, its tables, and the shared frames only it holds. */
  ghost predicate Returned(o: Owner, tables: map<nat, S.Table>, r: nat)
    requires r in tables
  {
    (o.Page? && o.root == r) || (o.Table? && o.slot.root == r) || Frees(o, tables, r, |tables[r].slots|)
  }

  ghost predicate Exited(owner: Owners, owner': Owners, tables: map<nat, S.Table>, r: nat)
    requires r in tables
  {
    && owner'.Keys == owner.Keys
    && forall f :: f in owner ==> owner'[f] == if Returned(owner[f], tables, r) then Free else owner[f]
  }

  /** In the kernel half, the address space translates like the kernel's. */
  ghost predicate SharesKernel(mem: Memory, r: nat, kernel: nat) {
    forall p: VPage :: 256 <= p.a < 512 ==> Walk(mem, r, p) == Walk(mem, kernel, p)
  }

  /** An entry of the boot loader's memory map. */
  datatype MapEntry = MapEntry(base: nat, length: nat, usable: bool)

  /** The frame lies wholly inside a usable entry. `init_pmm` cannot hand out frame 0: `pmm_free` ignores it. */
  predicate Usable(e: MapEntry, f: nat) {
    e.usable && f != 0 && f % PAGE_SIZE == 0 && e.base <= f && f + PAGE_SIZE <= e.base + e.length
  }

  /** A usable frame of the first `i` entries, or of entry `i` below `addr`. */
  ghost predicate Passed(es: seq<MapEntry>, i: nat, addr: nat, f: nat) {
    (exists j :: 0 <= j < |es| && j < i && Usable(es[j], f)) || (i < |es| && Usable(es[i], f) && f < addr)
  }

  ghost predicate Opened(owner: Owners, owner': Owners, es: seq<MapEntry>, i: nat, addr: nat) {
    owner'.Keys == owner.Keys && forall f :: f in owner ==> owner'[f] == if Passed(es, i, addr, f) then Free else owner[f]
  }

  /** Every usable frame is held by nobody yet, and belongs to one entry. */
  ghost predicate BootMap(es: seq<MapEntry>, owner: Owners) {
    && (forall j, f :: 0 <= j < |es| && Usable(es[j], f) ==> f in owner && owner[f] == Heap)
    && (forall j, k, f :: 0 <= j < k < |es| && Usable(es[j], f) ==> !Usable(es[k], f))
  }

  class Machine {
    var mem: Memory
    /** `free_list_head` */
    var head: nat
    /** `pmm_free_page_count` */
    var freeCount: nat
    /** The processes, by their top tables. */
    var procs: Layout
    /** The shared regions and handle tables. */
    const ipc: S.Ipc
    /** The kernel process's top table. */
    const kernel: nat

    ghost var free: seq<nat>
    ghost var owner: Owners
    ghost var tab: Tables
    ghost var user: UserMap

    ghost predicate Inner() reads this {
      Core(mem, head, freeCount, free, owner, tab, user, kernel)
    }

    /** The zeroing loop at the end of `pmm_alloc_page`. */
    method ZeroFrame(f: nat)
      requires f in mem && |mem[f]| == 512
      modifies `mem
      ensures mem == old(mem)[f := Zeros()]
    {
      var i := 0;
      while i < 512
        invariant i <= 512 && f in mem && |mem[f]| == 512 && mem == old(mem)[f := mem[f]]
        invariant forall j :: 0 <= j < i ==> mem[f][j] == 0
      {
        mem := SetWord(mem, f, i, 0);
        i := i + 1;
      }
      assert mem[f] == Zeros();
    }

    /** `pmm_alloc_page`: the first free frame, zeroed, or 0 when there is none. */
    method PmmAlloc(ghost o: Owner) returns (f: nat)
      requires Inner() && !o.Free? && !o.Table?
      modifies `mem, `head, `freeCount, `free, `owner
      ensures Inner() && SameLookups(old(mem), tab, mem, tab) && Pointers(old(mem), tab, mem, tab, 0)
      ensures old(free) == [] ==> f == 0 && mem == old(mem) && free == [] && owner == old(owner)
      ensures old(free) != [] ==> f == old(free)[0] && free == old(free)[1..] && FrameAddr(f) && mem == old(mem)[f := Zeros()]
      ensures old(free) != [] ==> f in old(owner) && old(owner)[f] == Free && owner == old(owner)[f := o]
    {
      hide Core, FramesOk, TreesOk, UserMaps, Lookup;
      EmptyHead(mem, head, freeCount, free, owner, tab, user, kernel);
      if head == 0 {
        return 0;
      }
      CoreAlloc(mem, head, freeCount, free, owner, tab, user, kernel, o);
      f := head;
      head := mem[f][0];
      freeCount := freeCount - 1;
      ZeroFrame(f);
      free, owner := free[1..], owner[f := o];
    }

    /** The handle tables, registry and page tables agree with the layout `lay` of the processes. */
    ghost predicate Booked(lay: Layout) reads this, ipc {
      && ipc.Valid() && Ledger(owner, user, lay, ipc.tables, ipc.registry)
      && forall r :: r in lay <==> Slot(r, Pml4) in tab
    }

    ghost predicate Valid() reads this, ipc {
      Inner() && Booked(procs) && kernel in procs
    }

    /** The machine before `init_pmm`: the boot loader's tables are the kernel's, every other frame is held, and
        the kernel process has no user pages. */
    constructor (m: Memory, kernelRoot: nat, heapVptr: nat, ghost tab0: Tables, ghost owner0: Owners)
      requires TreesOk(m, tab0, owner0, kernelRoot) && forall r :: Slot(r, Pml4) in tab0 <==> r == kernelRoot
      requires FramesOk(m, 0, 0, [], owner0) && forall f :: f in owner0 ==> owner0[f].Table? || owner0[f].Heap?
      requires forall v: nat :: UserAddr(v) ==> Lookup(m, tab0, kernelRoot, PageOf(v)) == None
      requires heapVptr % PAGE_SIZE == 0 && heapVptr <= USER_END
      ensures Valid() && mem == m && head == 0 && free == [] && kernel == kernelRoot
      ensures owner == owner0 && tab == tab0 && procs == map[kernelRoot := Proc(heapVptr, [])] && user == map[]
    {
      hide TreesOk, Ledger, Lookup, UserMaps, FramesOk, S.Sound;
      ipc := new S.Ipc();
      mem, head, freeCount, kernel, procs := m, 0, 0, kernelRoot, map[kernelRoot := Proc(heapVptr, [])];
      free, owner, tab, user := [], owner0, tab0, map[];
      new;
      ipc.AddProcess(kernelRoot);
      BootLedger(m, kernelRoot, heapVptr, tab0, owner0);
    }

    /** `pmm_free`: the frame goes to the front of the free list. */
    method PmmFree(f: nat)
      requires Inner() && (f != 0 ==> f in owner && !owner[f].Free? && !owner[f].Table?)
      modifies `mem, `head, `freeCount, `free, `owner
      ensures Inner() && SameLookups(old(mem), tab, mem, tab)
      ensures f == 0 ==> mem == old(mem) && free == old(free) && owner == old(owner)
      ensures f != 0 ==> free == [f] + old(free) && owner == old(owner)[f := Free]
      ensures f != 0 ==> f in old(mem) && |old(mem)[f]| == 512 && mem == SetWord(old(mem), f, 0, old(head)) && head == f
    {
      hide Core, Lookup;
      if f == 0 {
        return;
      }
      CoreRelease(mem, head, freeCount, free, owner, tab, user, kernel, f);
      mem := SetWord(mem, f, 0, head);
      head := f;
      freeCount := freeCount + 1;
      free, owner := [f] + free, owner[f := Free];
    }

    /** `init_pmm`: exactly the page-aligned frames wholly inside usable entries, other than frame 0, become free. */
    method InitPmm(es: seq<MapEntry>)
      requires Valid() && BootMap(es, owner)
      modifies `mem, `head, `freeCount, `free, `owner
      ensures Valid()
      ensures owner.Keys == old(owner).Keys
      ensures forall f :: f in owner ==>
                owner[f] == if exists j :: 0 <= j < |es| && Usable(es[j], f) then Free else old(owner)[f]
    {
      hide Core, Ledger, S.Sound, Lookup, SameLookups, Usable, Opened, BootMap;
      var i := 0;
      OpenedNone(owner, es);
      while i < |es|
        invariant i <= |es| && Inner() && Opened(old(owner), owner, es, i, 0)
      {
        if es[i].usable {
          FreeEntry(es, i, old(owner));
        } else {
          OpenedSkip(old(owner), owner, es, i);
        }
        i := i + 1;
      }
      OpenedAll(old(owner), owner, es);
      LedgerOpened(old(owner), owner, user, procs, ipc.tables, ipc.registry, es);
    }

    method FreeEntry(es: seq<MapEntry>, i: nat, ghost owner0: Owners)
      requires Inner() && i < |es| && es[i].usable && Opened(owner0, owner, es, i, 0) && BootMap(es, owner0)
      modifies `mem, `head, `freeCount, `free, `owner
      ensures Inner() && Opened(owner0, owner, es, i + 1, 0)
    {
      hide Core, Lookup, SameLookups, Usable, Opened, BootMap;
      var addr := (es[i].base + 0xFFF) / PAGE_SIZE * PAGE_SIZE;
      var top := es[i].base + es[i].length;
      OpenedStart(owner0, owner, es, i, addr);
      while addr + PAGE_SIZE <= top
        invariant Inner() && Opened(owner0, owner, es, i, addr) && addr % PAGE_SIZE == 0 && es[i].base <= addr
        decreases top - addr
      {
        OpenedStep(owner0, owner, es, i, addr);
        PmmFree(addr);
        addr := addr + PAGE_SIZE;
      }
      OpenedEnd(owner0, owner, es, i, addr);
    }

    /** One level of `vmm_map_page_in_pml4`: the table entry `i` points to, allocated if it is missing. */
    method Descend(ghost s: Slot, table: nat, i: nat, flags: nat) returns (next: nat)
      requires Inner() && s in tab && table == tab[s] && Tracked(s, i, kernel) && flags < PAGE_SIZE
      requires Slot(s.root, Child(s.node, i)) !in tab ==> free != []
      modifies `mem, `head, `freeCount, `free, `owner, `tab
      ensures Inner() && SameLookups(old(mem), old(tab), mem, tab)
      ensures GrewBy(old(tab), tab, old(free), free, old(owner), owner, Slot(s.root, Child(s.node, i)))
      ensures Pointers(old(mem), old(tab), mem, tab, flags)
      ensures next == tab[Slot(s.root, Child(s.node, i))]
    {
      hide FramesOk, TreesOk, UserMaps, Lookup, Pointers;
      ghost var c := Slot(s.root, Child(s.node, i));
      EntryOf(mem, tab, owner, kernel, s, i);
      SamePointers(mem, tab, flags);
      if !Present(mem[table][i]) {
        var f := PmmAlloc(Heap);
        CoreNewTable(mem, head, freeCount, free, owner, tab, user, kernel, s, i, f, flags);
        SamePointersAny(old(mem), mem, tab, flags);
        PointersTwice(old(mem), tab, mem, tab, SetWord(mem, table, i, TableEntry(f, flags)), tab[c := f], flags);
        mem := SetWord(mem, table, i, TableEntry(f, flags));
        owner, tab := owner[f := Table(c)], tab[c := f];
        EntryBits(f, flags);
      }
      next := AddrOf(mem[table][i]);
    }

    /** The three levels of `vmm_map_page_in_pml4` above the last one. */
    method Tables(root: nat, p: VPage, flags: nat) returns (pt: nat)
      requires Inner() && Slot(root, Pml4) in tab && Tracked(Slot(root, Pml4), p.a, kernel) && p.b < 512 && p.c < 512
      requires flags < PAGE_SIZE && Missing(tab.Keys, root, p) <= |free|
      modifies `mem, `head, `freeCount, `free, `owner, `tab
      ensures Inner() && SameLookups(old(mem), old(tab), mem, tab)
      ensures Grew(old(tab), tab, old(free), free, old(owner), owner, root, p) && Pointers(old(mem), old(tab), mem, tab, flags)
      ensures Slot(root, Pt(p.a, p.b, p.c)) in tab && pt == tab[Slot(root, Pt(p.a, p.b, p.c))]
    {
      hide Core, Lookup, OnlyTables, Pointers;
      TopTable(mem, head, freeCount, free, owner, tab, user, kernel, root);
      var pdpt := Descend(Slot(root, Pml4), root, p.a, flags);
      label one:
      var pd := Descend(Slot(root, Pdpt(p.a)), pdpt, p.b, flags);
      label two:
      PointersTwice(old(mem), old(tab), old@one(mem), old@one(tab), mem, tab, flags);
      pt := Descend(Slot(root, Pd(p.a, p.b)), pd, p.c, flags);
      PointersTwice(old(mem), old(tab), old@two(mem), old@two(tab), mem, tab, flags);
      GrewAll(old(tab), old@one(tab), old@two(tab), tab, old(free), old@one(free), old@two(free), free,
              old(owner), old@one(owner), old@two(owner), owner, root, p);
    }

    /** What storing `e` as the entry of page `virt` does to the user map: nothing for the kernel half. */
    ghost function Mapped(root: nat, virt: nat, e: nat): UserMap reads this {
      if UserAddr(virt) then Remapped(user, root, virt, e) else user
    }

    /** `pt[pt_idx] = e`, with its effect on the translation of every page. */
    method SetLeaf(root: nat, virt: nat, pt: nat, e: nat)
      requires Inner() && (UserAddr(virt) || PageOf(virt).a >= 256) && Tracked(Slot(root, Pml4), PageOf(virt).a, kernel)
      requires var p := PageOf(virt); Slot(root, Pt(p.a, p.b, p.c)) in tab && pt == tab[Slot(root, Pt(p.a, p.b, p.c))]
      modifies `mem, `user
      ensures Inner() && user == old(Mapped(root, virt, e))
      ensures Pointers(old(mem), tab, mem, tab, 0)
      ensures forall q, w :: Lookup(mem, tab, q, w) == if q == root && w == PageOf(virt) then PathIf(old(mem), tab, q, w, e) else Lookup(old(mem), tab, q, w)
    {
      hide FramesOk, TreesOk, UserMaps, Lookup, PageOf, Remapped, Pointers, PathIf;
      var p := PageOf(virt);
      CoreLeaf(mem, head, freeCount, free, owner, tab, user, kernel, root, p, e);
      mem := SetWord(mem, pt, p.d, e);
      if UserAddr(virt) {
        LeafUserMaps(old(mem), mem, tab, user, root, virt, e);
        user := Remapped(user, root, virt, e);
      } else {
        LeafKernelMaps(old(mem), mem, tab, user, root, p, e);
      }
    }

    /** `vmm_map_page_in_pml4`: the page translates to the frame with the access bits of `flags`, the tables made on the
        way are writable and open to the user if the page is, and no other page of any space changes. */
    method MapPage(root: nat, phys: nat, virt: nat, flags: nat)
      requires Inner() && Slot(root, Pml4) in tab && Tracked(Slot(root, Pml4), PageOf(virt).a, kernel)
      requires (UserAddr(virt) || PageOf(virt).a >= 256) && FrameAddr(phys) && flags < PAGE_SIZE
      requires Missing(tab.Keys, root, PageOf(virt)) <= |free|
      modifies `mem, `head, `freeCount, `free, `owner, `tab, `user
      ensures Inner() && OnlyChanges(old(mem), mem, old(tab), kernel, root, PageOf(virt), Walk(mem, root, PageOf(virt)))
      ensures var t := Walk(mem, root, PageOf(virt));
              && t.Some? && t.value == Path(mem, tab, root, PageOf(virt), t.value.pte)
              && t.value.pte / PAGE_SIZE * PAGE_SIZE == phys && t.value.pte % 2 == 1 && t.value.pte % PAGE_SIZE / 2 == flags / 2
      ensures Grew(old(tab), tab, old(free), free, old(owner), owner, root, PageOf(virt)) && Pointers(old(mem), old(tab), mem, tab, flags)
      ensures user == if UserAddr(virt) then old(user)[(root, virt) := phys] else old(user)
    {
      hide Core, Lookup, PageOf, Missing, OnlyChanges, LeafEntry, AddrOf, Pointers, Walk, Path;
      var pt := Tables(root, PageOf(virt), flags);
      label tables:
      ghost var e := LeafEntry(phys, flags);
      EntryBits(phys, flags);
      LeafBits(phys, flags);
      SetLeaf(root, virt, pt, LeafEntry(phys, flags));
      SamePointersAny(old@tables(mem), mem, tab, flags);
      PointersTwice(old(mem), old(tab), old@tables(mem), tab, mem, tab, flags);
      PathAfter(old@tables(mem), mem, tab, root, PageOf(virt), e);
      CoreWalks(old(mem), old(head), old(freeCount), old(free), old(owner), old(tab), old(user),
                mem, head, freeCount, free, owner, tab, user, kernel, root, PageOf(virt), Some(Path(mem, tab, root, PageOf(virt), e)));
      ChangedWalk(old(mem), mem, old(tab), kernel, root, PageOf(virt), Some(Path(mem, tab, root, PageOf(virt), e)));
    }

    /** `vmm_get_phys_in_pml4`: the frame the hardware walk reaches, or 0. */
    method GetPhys(root: nat, virt: nat) returns (phys: nat)
      requires Inner() && Slot(root, Pml4) in tab && Tracked(Slot(root, Pml4), PageOf(virt).a, kernel)
      ensures phys == match Walk(mem, root, PageOf(virt)) case None => 0 case Some(s) => AddrOf(s.pte)
      ensures UserAddr(virt) ==> phys == if (root, virt) in user then user[(root, virt)] else 0
    {
      hide Core, PageOf, AddrOf;
      var p := PageOf(virt);
      WalkMapped(mem, head, freeCount, free, owner, tab, user, kernel, root, virt);
      WalkInMemory(mem, head, freeCount, free, owner, tab, user, kernel, root, p);
      if !Present(mem[root][p.a]) {
        return 0;
      }
      var pdpt := AddrOf(mem[root][p.a]);
      if !Present(mem[pdpt][p.b]) {
        return 0;
      }
      var pd := AddrOf(mem[pdpt][p.b]);
      if !Present(mem[pd][p.c]) {
        return 0;
      }
      var pt := AddrOf(mem[pd][p.c]);
      if !Present(mem[pt][p.d]) {
        return 0;
      }
      return AddrOf(mem[pt][p.d]);
    }

    /** How many of the tables on the way to a page are missing. */
    method CountMissing(root: nat, p: VPage) returns (n: nat)
      requires Inner() && Slot(root, Pml4) in tab && Tracked(Slot(root, Pml4), p.a, kernel) && p.b < 512 && p.c < 512
      ensures n == Missing(tab.Keys, root, p)
    {
      hide FramesOk, TreesOk, UserMaps, AddrOf;
      TopTable(mem, head, freeCount, free, owner, tab, user, kernel, root);
      OrphanFree(mem, tab, owner, kernel, Slot(root, Pd(p.a, p.b)));
      OrphanFree(mem, tab, owner, kernel, Slot(root, Pt(p.a, p.b, p.c)));
      EntryOf(mem, tab, owner, kernel, Slot(root, Pml4), p.a);
      if !Present(mem[root][p.a]) {
        return 3;
      }
      var pdpt := AddrOf(mem[root][p.a]);
      EntryOf(mem, tab, owner, kernel, Slot(root, Pdpt(p.a)), p.b);
      if !Present(mem[pdpt][p.b]) {
        return 2;
      }
      var pd := AddrOf(mem[pdpt][p.b]);
      EntryOf(mem, tab, owner, kernel, Slot(root, Pd(p.a, p.b)), p.c);
      return if Present(mem[pd][p.c]) then 0 else 1;
    }

    /** The page tables missing on the way to a page of the kernel heap, and the free frames. */
    method TablesMissing(virt: nat) returns (missing: nat, frames: nat)
      requires Valid() && PageOf(virt).a == 511
      ensures missing == Missing(tab.Keys, kernel, PageOf(virt)) && frames == |free|
    {
      hide TreesOk, UserMaps, PageOf, Missing, Ledger;
      missing := CountMissing(kernel, PageOf(virt));
      frames := freeCount;
    }

    /** `vmm_unmap_page_in_pml4`: the page has no translation, and no other page of any space changes. */
    method UnmapPage(root: nat, virt: nat)
      requires Inner() && Slot(root, Pml4) in tab && Tracked(Slot(root, Pml4), PageOf(virt).a, kernel)
      requires UserAddr(virt) || PageOf(virt).a >= 256
      modifies `mem, `user
      ensures Inner() && OnlyChanges(old(mem), mem, tab, kernel, root, PageOf(virt), None) && Pointers(old(mem), tab, mem, tab, 0)
      ensures user == if UserAddr(virt) then old(user) - {(root, virt)} else old(user)
    {
      hide Core, PageOf, AddrOf, Lookup, Walk, OnlyChanges, Pointers;
      var p := PageOf(virt);
      SamePointers(mem, tab, 0);
      WalkInMemory(mem, head, freeCount, free, owner, tab, user, kernel, root, p);
      WalkMapped(mem, head, freeCount, free, owner, tab, user, kernel, root, virt);
      NoneUnchanged(mem, tab, kernel, root, p);
      if !Present(mem[root][p.a]) {
        return;
      }
      var pdpt := AddrOf(mem[root][p.a]);
      if !Present(mem[pdpt][p.b]) {
        return;
      }
      var pd := AddrOf(mem[pdpt][p.b]);
      if !Present(mem[pd][p.c]) {
        return;
      }
      SetLeaf(root, virt, AddrOf(mem[pd][p.c]), 0);
      CoreWalks(old(mem), head, freeCount, free, owner, tab, old(user), mem, head, freeCount, free, owner, tab, user, kernel, root, p, None);
    }

    /** One round of `pmalloc`'s loop: a fresh frame, mapped at the heap pointer of the layout reached so far. */
    method AddPage(r: nat, v: nat, ghost lay: Layout) returns (phys: nat)
      requires Inner() && Booked(lay) && CanGrow(lay, r) && v == lay[r].heapVptr
      requires 1 + Missing(tab.Keys, r, PageOf(v)) <= |free|
      modifies `mem, `head, `freeCount, `free, `owner, `tab, `user
      ensures Inner() && Booked(lay[r := GrowFirst(lay[r])])
      ensures tab.Keys == old(tab).Keys + PathSlots(r, PageOf(v))
      ensures |free| == |old(free)| - 1 - Missing(old(tab).Keys, r, PageOf(v))
      ensures UserAddr(v) && (r, v) !in old(user) && user == old(user)[(r, v) := phys]
      ensures Took(old(owner), owner, r, v, v + 1) && phys != 0
      ensures OpenPage(mem, r, v) && Pointers(old(mem), old(tab), mem, tab, 7)
      ensures OnlyChanges(old(mem), mem, old(tab), kernel, r, PageOf(v), Walk(mem, r, PageOf(v)))
    {
      hide Core, Lookup, PageOf, Missing, PathSlots, Ledger, OnlyChanges, OnlyTables, S.Sound, Pointers, Walk, Path, SameLookups, SameWalks;
      phys := PmmAlloc(Page(r, v));
      label taken:
      CoreSameWalks(old(mem), old(head), old(freeCount), old(free), old(owner), tab, user, mem, head, freeCount, free, owner, tab, user, kernel);
      SamePointersAny(old(mem), mem, tab, 7);
      LedgerAddPage(old(owner), user, lay, ipc.tables, ipc.registry, r, phys);
      PageOfUser(v, v);
      MapPage(r, phys, v, PRESENT + RW + USER);
      PointersTwice(old(mem), old(tab), old@taken(mem), old(tab), mem, tab, 7);
      WalksThen(old(mem), old@taken(mem), mem, old(tab), kernel, r, PageOf(v), Walk(mem, r, PageOf(v)));
      UserBits(Walk(mem, r, PageOf(v)).value.pte);
      NoTop(r, PageOf(v));
      LedgerTables(old@taken(owner), owner, user, lay[r := GrowFirst(lay[r])], ipc.tables, ipc.registry);
      TookOne(old(owner), old@taken(owner), owner, r, v, phys);
    }

    /** `pmalloc` for process `r`: a new region of private frames at its heap pointer, or null for size 0. */
    method PMalloc(r: nat, size: nat) returns (ptr: nat)
      requires Valid() && r in procs && size < 0x1_0000_0000_0000_0000
      requires procs[r].heapVptr + PagesFor(size) * PAGE_SIZE <= USER_END
      requires FramesFor(tab.Keys, r, procs[r].heapVptr, PagesFor(size)) <= |free|
      modifies `mem, `head, `freeCount, `free, `owner, `tab, `user, `procs
      ensures Valid()
      ensures size == 0 ==> ptr == 0 && procs == old(procs) && free == old(free) && owner == old(owner) && user == old(user)
      ensures size != 0 ==> ptr == old(procs)[r].heapVptr
      ensures size != 0 ==> var p, n := old(procs)[r], PagesFor(size);
              procs == old(procs)[r := Proc(ptr + n * PAGE_SIZE, [Region(ptr, FirstFrame(user, r, ptr, n), n)] + p.regions)]
      ensures size != 0 ==> Took(old(owner), owner, r, ptr, ptr + PagesFor(size) * PAGE_SIZE)
      ensures size != 0 ==> Gained(old(user), user, r, ptr, ptr + PagesFor(size) * PAGE_SIZE)
      ensures size != 0 ==> |free| == |old(free)| - FramesFor(old(tab).Keys, r, ptr, PagesFor(size))
      ensures size != 0 ==> Granted(old(mem), old(tab), mem, tab, kernel, r, ptr, PagesFor(size))
    {
      hide Core, Ledger, S.Sound, FramesFor, Took, Gained, PagesFor, PageOf, Granted;
      if size == 0 {
        return 0;
      }
      var pages := PagesFor(size);
      ptr := procs[r].heapVptr;
      var first := FillRegion(r, ptr, pages);
      procs := procs[r := Proc(ptr + pages * PAGE_SIZE, [Region(ptr, first, pages)] + procs[r].regions)];
    }

    method FillStep(r: nat, v: nat, i: nat, n: nat, ghost lay: Layout) returns (phys: nat)
      requires Inner() && r in procs && v == procs[r].heapVptr && i < n && v + n * PAGE_SIZE <= USER_END
      requires lay == procs[r := GrownBy(procs[r], i)] && Booked(lay)
      requires FramesFor(tab.Keys, r, v + i * PAGE_SIZE, n - i) <= |free|
      modifies `mem, `head, `freeCount, `free, `owner, `tab, `user
      ensures Inner() && Booked(procs[r := GrownBy(procs[r], i + 1)])
      ensures FramesFor(tab.Keys, r, v + (i + 1) * PAGE_SIZE, n - i - 1) <= |free|
      ensures |free| - FramesFor(tab.Keys, r, v + (i + 1) * PAGE_SIZE, n - i - 1)
           == |old(free)| - FramesFor(old(tab).Keys, r, v + i * PAGE_SIZE, n - i)
      ensures Took(old(owner), owner, r, v + i * PAGE_SIZE, v + i * PAGE_SIZE + 1) && UserAddr(v + i * PAGE_SIZE)
      ensures (r, v + i * PAGE_SIZE) !in old(user) && user == old(user)[(r, v + i * PAGE_SIZE) := phys]
      ensures OpenPage(mem, r, v + i * PAGE_SIZE) && Pointers(old(mem), old(tab), mem, tab, 7)
      ensures OnlyChanges(old(mem), mem, old(tab), kernel, r, PageOf(v + i * PAGE_SIZE), Walk(mem, r, PageOf(v + i * PAGE_SIZE)))
    {
      hide Core, Lookup, PageOf, Missing, PathSlots, Ledger, S.Sound, Took, FramesFor, UserAddr, OnlyChanges, OpenPage, Pointers, Walk;
      GrownStep(procs[r], i);
      FramesForOne(tab.Keys, r, v + i * PAGE_SIZE, n - i);
      phys := AddPage(r, v + i * PAGE_SIZE, lay);
      assert lay[r := GrowFirst(lay[r])] == procs[r := GrownBy(procs[r], i + 1)];
    }

    /** `pmalloc`'s loop. The layout is already that of the finished region, whatever its recorded first frame. */
    method FillRegion(r: nat, v: nat, n: nat) returns (first: nat)
      requires Valid() && r in procs && v == procs[r].heapVptr && v + n * PAGE_SIZE <= USER_END
      requires FramesFor(tab.Keys, r, v, n) <= |free|
      modifies `mem, `head, `freeCount, `free, `owner, `tab, `user
      ensures Inner()
      ensures Booked(procs[r := Proc(v + n * PAGE_SIZE, [Region(v, first, n)] + procs[r].regions)])
      ensures Took(old(owner), owner, r, v, v + n * PAGE_SIZE) && Gained(old(user), user, r, v, v + n * PAGE_SIZE)
      ensures |free| == |old(free)| - FramesFor(old(tab).Keys, r, v, n)
      ensures (n > 0 ==> (r, v) in user) && first == FirstFrame(user, r, v, n)
      ensures Granted(old(mem), old(tab), mem, tab, kernel, r, v, n)
    {
      hide Core, Lookup, PageOf, Missing, PathSlots, Ledger, S.Sound, Took, Gained, FramesFor, UserAddr, OnlyChanges, OpenPage, Granted, Pointers, Walk;
      first := 0;
      GrantedNone(mem, tab, kernel, r, v);
      var i := 0;
      ghost var lay := procs[r := GrownBy(procs[r], 0)];
      LedgerNewRegion(owner, user, procs, ipc.tables, ipc.registry, r);
      TookNone(owner, user, r, v);
      while i < n
        invariant i <= n && Inner() && lay == procs[r := GrownBy(procs[r], i)] && Booked(lay)
        invariant FramesFor(tab.Keys, r, v + i * PAGE_SIZE, n - i) <= |free|
        invariant |free| - FramesFor(tab.Keys, r, v + i * PAGE_SIZE, n - i) == |old(free)| - FramesFor(old(tab).Keys, r, v, n)
        invariant Took(old(owner), owner, r, v, v + i * PAGE_SIZE) && Gained(old(user), user, r, v, v + i * PAGE_SIZE)
        invariant (i > 0 ==> (r, v) in user) && first == FirstFrame(user, r, v, i)
        invariant Granted(old(mem), old(tab), mem, tab, kernel, r, v, i)
      {
        label round:
        var phys := FillStep(r, v, i, n, lay);
        GrantedMore(old(mem), old(tab), old@round(mem), old@round(tab), mem, tab, kernel, r, v, i);
        if i == 0 {
          first := phys;
        }
        lay := procs[r := GrownBy(procs[r], i + 1)];
        TookMore(old(owner), old@round(owner), owner, r, v, i);
        GainedMore(old(user), old@round(user), user, r, v, i, phys);
        i := i + 1;
      }
      FramesForNone(tab.Keys, r, v + n * PAGE_SIZE);
      ghost var done := procs[r := Proc(v + n * PAGE_SIZE, [Region(v, first, n)] + procs[r].regions)];
      GrownDone(procs[r], v, n, first);
      SetPhys(owner, user, lay, done, ipc.tables, ipc.registry, r, first);
    }

    /** One round of the loops that give back a region's pages: the first page left of region `k`. */
    method ReleasePage(r: nat, v: nat, k: nat, ghost lay: Layout)
      requires Inner() && Booked(lay) && HasPage(lay, r, k) && v == lay[r].regions[k].virt
      modifies `mem, `head, `freeCount, `free, `owner, `user
      ensures Inner() && Booked(lay[r := ShrinkAt(lay[r], k)])
      ensures UserAddr(v) && (r, v) in old(user) && user == old(user) - {(r, v)}
      ensures var f := old(user)[(r, v)];
              f in old(owner) && old(owner)[f] == Page(r, v) && owner == old(owner)[f := Free] && free == [f] + old(free)
      ensures Gave(old(owner), owner, r, v, v + 1)
    {
      hide Core, Lookup, PageOf, Ledger, S.Sound, OnlyChanges, Walk, HasPage;
      LedgerRemovePage(owner, user, lay, ipc.tables, ipc.registry, r, k);
      GaveOne(owner, user, lay, ipc.tables, ipc.registry, r, v);
      PageOfUser(v, v);
      UserFrame(mem, head, freeCount, free, owner, tab, user, kernel, user[(r, v)]);
      RootOf(lay, r, k);
      var phys := GetPhys(r, v);
      if phys != 0 {
        PmmFree(phys);
        UnmapPage(r, v);
      }
    }

    /** The loop over a region's pages in `pfree` and `process_exit`; what is left is the layout without it. */
    method ReleaseRegion(r: nat, k: nat)
      requires Valid() && r in procs && k < |procs[r].regions|
      modifies `mem, `head, `freeCount, `free, `owner, `user
      ensures var g := procs[r].regions[k];
              && Gave(old(owner), owner, r, g.virt, RegionEnd(g)) && Lost(old(user), user, r, g.virt, RegionEnd(g))
              && |free| == |old(free)| + g.pages
      ensures Inner() && Booked(procs[r := WithoutRegion(procs[r], k)])
    {
      hide Core, Lookup, PageOf, Ledger, S.Sound, Gave, Lost, UserAddr;
      var g := procs[r].regions[k];
      ghost var lay := procs[r := ShrunkBy(procs[r], k, 0)];
      ShrunkNone(procs[r], k);
      assert lay == procs;
      TookNone(owner, user, r, g.virt);
      var i := 0;
      while i < g.pages
        invariant i <= g.pages && Inner() && lay == procs[r := ShrunkBy(procs[r], k, i)] && Booked(lay)
        invariant Gave(old(owner), owner, r, g.virt, g.virt + i * PAGE_SIZE) && Lost(old(user), user, r, g.virt, g.virt + i * PAGE_SIZE)
        invariant |free| == |old(free)| + i
      {
        label round:
        ShrunkStep(procs[r], k, i);
        ReleasePage(r, g.virt + i * PAGE_SIZE, k, lay);
        assert lay[r := ShrinkAt(lay[r], k)] == procs[r := ShrunkBy(procs[r], k, i + 1)];
        lay := procs[r := ShrunkBy(procs[r], k, i + 1)];
        GaveMore(old(owner), old@round(owner), owner, r, g.virt, i);
        LostMore(old(user), old@round(user), user, r, g.virt, i);
        i := i + 1;
      }
      LedgerDropRegion(owner, user, lay, ipc.tables, ipc.registry, r, k);
      ShrunkAway(procs[r], k);
      assert lay[r := WithoutRegion(lay[r], k)] == procs[r := WithoutRegion(procs[r], k)];
    }

    /** The region `pfree` gives back: the first one that starts at `ptr`. */
    ghost function RegionAt(gs: seq<Region>, ptr: nat): (k: nat)
      ensures k <= |gs| && (k < |gs| ==> gs[k].virt == ptr) && forall j :: 0 <= j < k ==> gs[j].virt != ptr
    {
      if gs == [] || gs[0].virt == ptr then 0 else 1 + RegionAt(gs[1..], ptr)
    }

    /** `pfree` for process `r`: exactly the frames of the region are free again. */
    method PFree(r: nat, ptr: nat)
      requires Valid() && r in procs
      modifies `mem, `head, `freeCount, `free, `owner, `user, `procs
      ensures Valid()
      ensures var k := RegionAt(old(procs)[r].regions, ptr);
              if ptr == 0 || k == |old(procs)[r].regions| then
                procs == old(procs) && mem == old(mem) && free == old(free) && owner == old(owner) && user == old(user)
              else
                && var g := old(procs)[r].regions[k];
                && procs == old(procs)[r := WithoutRegion(old(procs)[r], k)]
                && Gave(old(owner), owner, r, g.virt, RegionEnd(g)) && Lost(old(user), user, r, g.virt, RegionEnd(g))
                && |free| == |old(free)| + g.pages
    {
      hide Core, Ledger, S.Sound, Gave, Lost;
      if ptr == 0 {
        return;
      }
      var k := 0;
      while k < |procs[r].regions| && procs[r].regions[k].virt != ptr
        invariant k <= |procs[r].regions| && forall j :: 0 <= j < k ==> procs[r].regions[j].virt != ptr
      {
        k := k + 1;
      }
      if k < |procs[r].regions| {
        ReleaseRegion(r, k);
        procs := procs[r := WithoutRegion(procs[r], k)];
      }
    }

    /** One `pmm_free` of the teardown. */
    method FreeTable(ghost st: Snapshot, ghost s: Slot, frame: nat, ghost left: set<Slot>) returns (ghost rest: set<Slot>)
      requires Inner() && Start(st) && Torn(st, mem, owner, left) && s in left && frame == st.tab[s]
      modifies `mem, `head, `freeCount, `free, `owner
      ensures Inner() && Torn(st, mem, owner, rest) && rest == left - {s}
    {
      hide Core, Start, Torn, Lookup;
      LeftHeld(st, mem, owner, left, s);
      UserFrame(mem, head, freeCount, free, owner, tab, user, kernel, frame);
      TornStep(st, mem, owner, left, s, head);
      PmmFree(frame);
      rest := left - {s};
    }

    /** `pd`'s loop: its last-level tables, then itself. */
    method FreePd(ghost st: Snapshot, ghost s: Slot, frame: nat, ghost left: set<Slot>) returns (ghost rest: set<Slot>)
      requires Inner() && Start(st) && Torn(st, mem, owner, left) && s in left && frame == st.tab[s] && s.node.Pd?
      requires s.root == st.root && forall t :: Below(st, s, t) ==> t in left
      modifies `mem, `head, `freeCount, `free, `owner
      ensures Inner() && Torn(st, mem, owner, rest)
      ensures forall t :: t in rest <==> t in left && !Below(st, s, t)
    {
      hide Core, Start, Torn, Lookup, Below, BelowFirst;
      rest := left;
      var i := 0;
      BelowNone(st, s);
      BelowItself(st, mem, owner, left, s);
      while i < 512
        invariant i <= 512 && Inner() && Torn(st, mem, owner, rest)
        invariant forall t :: t in rest <==> t in left && !BelowFirst(st, s, i, t)
      {
        rest := FreePdEntry(st, s, frame, i, left, rest);
        i := i + 1;
      }
      forall t ensures BelowFirst(st, s, 512, t) <==> Below(st, s, t) && t != s { BelowAll(st, s, t); }
      rest := FreeTable(st, s, frame, rest);
    }

    method FreePdEntry(ghost st: Snapshot, ghost s: Slot, frame: nat, i: nat, ghost left: set<Slot>, ghost now: set<Slot>)
      returns (ghost rest: set<Slot>)
      requires Inner() && Start(st) && Torn(st, mem, owner, now) && s in left && s in st.tab && frame == st.tab[s] && s.node.Pd? && i < 512
      requires s.root == st.root && forall t :: Below(st, s, t) ==> t in left
      requires forall t :: t in now <==> t in left && !BelowFirst(st, s, i, t)
      modifies `mem, `head, `freeCount, `free, `owner
      ensures Inner() && Torn(st, mem, owner, rest)
      ensures forall t :: t in rest <==> t in left && !BelowFirst(st, s, i + 1, t)
    {
      hide Core, Start, Torn, Lookup, Below, BelowFirst;
      ghost var c := Slot(s.root, Child(s.node, i));
      EntryLeft(st, mem, owner, left, now, s, i);
      rest := now;
      if Present(mem[frame][i]) {
        rest := FreeTable(st, c, AddrOf(mem[frame][i]), now);
      }
      forall t ensures BelowFirst(st, s, i + 1, t) <==> BelowFirst(st, s, i, t) || (t == c && c in st.tab) {
        BelowNext(st, s, i, t);
        BelowSelf(st, c, t);
      }
    }

    /** `pdpt`'s loop. */
    method FreePdpt(ghost st: Snapshot, ghost s: Slot, frame: nat, ghost left: set<Slot>) returns (ghost rest: set<Slot>)
      requires Inner() && Start(st) && Torn(st, mem, owner, left) && s in left && frame == st.tab[s] && s.node.Pdpt?
      requires s.root == st.root && forall t :: Below(st, s, t) ==> t in left
      modifies `mem, `head, `freeCount, `free, `owner
      ensures Inner() && Torn(st, mem, owner, rest)
      ensures forall t :: t in rest <==> t in left && !Below(st, s, t)
    {
      hide Core, Start, Torn, Lookup, Below, BelowFirst;
      rest := left;
      var i := 0;
      BelowNone(st, s);
      BelowItself(st, mem, owner, left, s);
      while i < 512
        invariant i <= 512 && Inner() && Torn(st, mem, owner, rest)
        invariant forall t :: t in rest <==> t in left && !BelowFirst(st, s, i, t)
      {
        rest := FreePdptEntry(st, s, frame, i, left, rest);
        i := i + 1;
      }
      forall t ensures BelowFirst(st, s, 512, t) <==> Below(st, s, t) && t != s { BelowAll(st, s, t); }
      rest := FreeTable(st, s, frame, rest);
    }

    method FreePdptEntry(ghost st: Snapshot, ghost s: Slot, frame: nat, i: nat, ghost left: set<Slot>, ghost now: set<Slot>)
      returns (ghost rest: set<Slot>)
      requires Inner() && Start(st) && Torn(st, mem, owner, now) && s in left && s in st.tab && frame == st.tab[s] && s.node.Pdpt? && i < 512
      requires s.root == st.root && forall t :: Below(st, s, t) ==> t in left
      requires forall t :: t in now <==> t in left && !BelowFirst(st, s, i, t)
      modifies `mem, `head, `freeCount, `free, `owner
      ensures Inner() && Torn(st, mem, owner, rest)
      ensures forall t :: t in rest <==> t in left && !BelowFirst(st, s, i + 1, t)
    {
      hide Core, Start, Torn, Lookup, Below, BelowFirst;
      ghost var c := Slot(s.root, Child(s.node, i));
      EntryLeft(st, mem, owner, left, now, s, i);
      rest := now;
      if Present(mem[frame][i]) {
        rest := FreePd(st, c, AddrOf(mem[frame][i]), now);
      }
      forall t ensures BelowFirst(st, s, i + 1, t) <==> BelowFirst(st, s, i, t) || (c in st.tab && Below(st, c, t)) {
        BelowNext(st, s, i, t);
        if c !in st.tab { NoneBelow(st, c, t); }
      }
    }

    /** `vmm_free_pml4_user`: every table of the address space is free again, and nothing else changes hands. */
    method FreePml4(ghost st: Snapshot, root: nat, ghost left: set<Slot>)
      requires Inner() && Start(st) && st.root == root && Torn(st, mem, owner, left) && left == TablesOf(st.tab, root)
      modifies `mem, `head, `freeCount, `free, `owner
      ensures Inner() && Torn(st, mem, owner, {})
    {
      hide Core, Start, Torn, Lookup, Below, BelowFirst, TablesOf;
      ghost var s := Slot(root, Pml4);
      ghost var rest := left;
      var i := 0;
      BelowNone(st, s);
      TopLeft(st, left);
      while i < 256
        invariant i <= 256 && Inner() && Torn(st, mem, owner, rest)
        invariant forall t :: t in rest <==> t in left && !BelowFirst(st, s, i, t)
      {
        rest := FreePml4Entry(st, s, root, i, left, rest);
        i := i + 1;
      }
      forall t ensures BelowFirst(st, s, 256, t) <==> Below(st, s, t) && t != s { BelowAll(st, s, t); }
      rest := FreeTable(st, s, root, rest);
      assert rest == {};
    }

    method FreePml4Entry(ghost st: Snapshot, ghost s: Slot, root: nat, i: nat, ghost left: set<Slot>, ghost now: set<Slot>)
      returns (ghost rest: set<Slot>)
      requires Inner() && Start(st) && Torn(st, mem, owner, now) && s in left && s in st.tab && root == st.tab[s] && s.node.Pml4? && i < 256
      requires s.root == st.root && forall t :: Below(st, s, t) ==> t in left
      requires forall t :: t in now <==> t in left && !BelowFirst(st, s, i, t)
      modifies `mem, `head, `freeCount, `free, `owner
      ensures Inner() && Torn(st, mem, owner, rest)
      ensures forall t :: t in rest <==> t in left && !BelowFirst(st, s, i + 1, t)
    {
      hide Core, Start, Torn, Lookup, Below, BelowFirst;
      ghost var c := Slot(s.root, Child(s.node, i));
      EntryLeft(st, mem, owner, left, now, s, i);
      rest := now;
      if Present(mem[root][i]) {
        rest := FreePdpt(st, c, AddrOf(mem[root][i]), now);
      }
      forall t ensures BelowFirst(st, s, i + 1, t) <==> BelowFirst(st, s, i, t) || (c in st.tab && Below(st, c, t)) {
        BelowNext(st, s, i, t);
        if c !in st.tab { NoneBelow(st, c, t); }
      }
    }

    /** `shmem_create_region` for one page: a zeroed frame, held by the region until its last detach. */
    method CreateRegion(pages: nat, flags: nat) returns (id: int)
      requires Valid() && pages <= 1
      modifies `mem, `head, `freeCount, `free, `owner, ipc
      ensures Valid() && ipc.tables == old(ipc.tables)
      ensures old(free) == [] ==> id == -1 && free == [] && owner == old(owner) && ipc.registry == old(ipc.registry)
      ensures old(free) != [] ==> id == old(ipc.nextId) && free == old(free)[1..] && owner == old(owner)[old(free)[0] := Shared(id)]
      ensures old(free) != [] ==> ipc.registry == [S.Region(id, old(free)[0], 1, flags, 0)] + old(ipc.registry)
    {
      hide Core, Ledger, S.Sound, Lookup, SameLookups;
      var phys := PmmAlloc(Shared(ipc.nextId));
      if phys != 0 {
        FreshId(ipc.registry, ipc.nextId, ipc.tables);
        LedgerNewShared(old(owner), user, procs, ipc.tables, ipc.registry, phys, S.Region(ipc.nextId, phys, 1, flags, 0));
      }
      id := ipc.CreateRegion(pages, flags, phys);
    }

    /** `shmem_attach_proc`: a new handle maps the region's frame at the heap pointer, which moves up by a page. */
    method Attach(r: nat, id: nat) returns (handle: int)
      requires Valid() && r in procs
      requires AttachesNew(ipc.registry, ipc.tables[r].slots, id) ==>
                 procs[r].heapVptr + PAGE_SIZE <= USER_END && Missing(tab.Keys, r, PageOf(procs[r].heapVptr)) <= |free|
      modifies `mem, `head, `freeCount, `free, `owner, `tab, `user, `procs, ipc
      ensures Valid()
      ensures var s, k := old(ipc.tables)[r].slots, S.Where(old(ipc.registry), id);
              if AttachesNew(old(ipc.registry), s, id) then
                var v := old(procs)[r].heapVptr;
                && handle == S.FirstInactive(s) && ipc.registry == S.Bumped(old(ipc.registry), k)
                && procs == old(procs)[r := Advance(old(procs)[r])]
                && (r, v) !in old(user) && user == old(user)[(r, v) := old(ipc.registry)[k].phys]
                && OnlyTables(old(owner), owner) && Pointers(old(mem), old(tab), mem, tab, 4)
                && var t := Walk(mem, r, PageOf(v));
                && t.Some? && t.value.pte % 2 == 1 && t.value.pte / 4 % 2 == 1
                && t.value.pte / 2 % 2 == old(ipc.registry)[k].flags / 2 % 2
                && OnlyChanges(old(mem), mem, old(tab), kernel, r, PageOf(v), t)
              else
                && ipc.registry == old(ipc.registry) && procs == old(procs) && user == old(user) && owner == old(owner)
                && free == old(free) && mem == old(mem)
    {
      hide Core, Ledger, S.Sound, Lookup, PageOf, Missing, OnlyChanges, OnlyTables, Pointers, Walk, Path;
      var va := procs[r].heapVptr;
      SameProcesses(owner, user, procs, ipc.tables, ipc.registry);
      ghost var tables, reg, k := ipc.tables, ipc.registry, S.Where(ipc.registry, id);
      var added;
      handle, added := ipc.Attach(r, id, va);
      if added.Some? {
        RoomAdds(tables[r].slots, S.Entry(true, id, va, added.value.pages));
        LedgerAttach(owner, user, procs, tables, reg, r, handle, S.Entry(true, id, va, added.value.pages), ipc.tables[r], k);
        SharedFrame(mem, head, freeCount, free, owner, tab, user, kernel, added.value.phys);
        PageOfUser(va, va);
        NoTop(r, PageOf(va));
        var writable := added.value.flags / RW % 2 * RW;
        ghost var flags := writable + USER;
        MapPage(r, added.value.phys, va, writable + USER);
        SharedBits(Walk(mem, r, PageOf(va)).value.pte, added.value.flags);
        PointersUser(old(mem), old(tab), mem, tab, flags, 4);
        LedgerTables(old(owner), owner, user, procs[r := Advance(procs[r])], ipc.tables, ipc.registry);
        procs := procs[r := Advance(procs[r])];
      }
    }

    /** `shmem_detach_proc` on a single-page region: its page is unmapped, and its frame becomes free with the last handle. */
    method Detach(r: nat, handle: int) returns (ok: bool)
      requires Valid() && r in procs
      modifies `mem, `head, `freeCount, `free, `owner, `user, ipc
      ensures Valid()
      ensures ok <==> 0 <= handle < |old(ipc.tables)[r].slots| && old(ipc.tables)[r].slots[handle].active
      ensures !ok ==> user == old(user) && owner == old(owner) && ipc.tables == old(ipc.tables) && ipc.registry == old(ipc.registry)
      ensures ok ==> var e := old(ipc.tables)[r].slots[handle];
                     var k := S.Where(old(ipc.registry), e.id);
                     && user == old(user) - {(r, e.virt)} && ipc.tables == S.Cleared(old(ipc.tables), r, handle)
                     && k < |old(ipc.registry)| && ipc.registry == S.Dropped(old(ipc.registry), k)
                     && owner == ReleasedIf(old(owner), old(ipc.registry)[k].refs <= 1, old(ipc.registry)[k].phys)
      ensures ok ==> LetGoOne(old(owner), owner, old(ipc.tables), r, handle)
    {
      hide Core, Ledger, S.Sound, Lookup, PageOf, OnlyChanges, LetGoOne, S.Dropped;
      SameProcesses(owner, user, procs, ipc.tables, ipc.registry);
      ghost var tables, reg := ipc.tables, ipc.registry;
      if handle < 0 || handle >= |ipc.tables[r].slots| {
        return false;
      }
      var va := ipc.tables[r].slots[handle].virt;
      var freed;
      ok, freed := ipc.Detach(r, handle);
      if ok {
        LastHandle(reg, ipc.nextId, tables, r, handle);
        ghost var k := S.Where(reg, tables[r].slots[handle].id);
        LedgerDetach(owner, user, procs, tables, reg, r, handle, ipc.tables[r], k);
        DetachLetsGo(owner, user, procs, tables, reg, r, handle, k);
        PageOfUser(va, va);
        UnmapPage(r, va);
        if freed.Some? {
          SharedFrame(mem, head, freeCount, free, owner, tab, user, kernel, freed.value.phys);
          PmmFree(freed.value.phys);
        }
      }
    }

    /** `ipc_process_cleanup`: the process gives up every handle, and the frames that only it held are free. */
    method Cleanup(r: nat)
      requires Valid() && r in procs
      modifies `mem, `head, `freeCount, `free, `owner, `user, ipc
      ensures Valid() && ipc.tables == old(ipc.tables)[r := S.Table([], 0)]
      ensures r in old(ipc.tables) && LetGo(old(owner), owner, old(ipc.tables), r, |old(ipc.tables)[r].slots|)
      ensures OthersKept(old(user), user, r)
    {
      hide Core, Ledger, S.Sound, LetGo, OthersKept, GaveUp;
      SameProcesses(owner, user, procs, ipc.tables, ipc.registry);
      ghost var tables := ipc.tables;
      var h, n := 0, |ipc.tables[r].slots|;
      LetGoNone(owner, user, tables, r);
      while h < n
        invariant h <= n && Valid() && r in ipc.tables && n == |ipc.tables[r].slots|
        invariant GaveUp(tables, ipc.tables, r, h) && LetGo(old(owner), owner, tables, r, h) && OthersKept(old(user), user, r)
      {
        CleanupSlot(r, h, tables, old(owner), old(user));
        h := h + 1;
      }
      AllGaveUp(tables, ipc.tables, r, n);
      DropLedger(owner, user, procs, ipc.tables, ipc.registry, r);
      ipc.DropTable(r);
    }

    method CleanupSlot(r: nat, h: nat, ghost tables: map<nat, S.Table>, ghost owner0: Owners, ghost user0: UserMap)
      requires Valid() && r in procs && r in ipc.tables && h < |ipc.tables[r].slots| && r in tables
      requires GaveUp(tables, ipc.tables, r, h) && LetGo(owner0, owner, tables, r, h) && OthersKept(user0, user, r)
      modifies `mem, `head, `freeCount, `free, `owner, `user, ipc
      ensures Valid() && r in ipc.tables && |ipc.tables[r].slots| == old(|ipc.tables[r].slots|)
      ensures GaveUp(tables, ipc.tables, r, h + 1) && LetGo(owner0, owner, tables, r, h + 1) && OthersKept(user0, user, r)
    {
      hide Core, Ledger, S.Sound, LetGo, LetGoOne, OthersKept, GaveUp, S.Dropped, ReleasedIf;
      SlotKept(tables, ipc.tables, r, h);
      if ipc.tables[r].slots[h].active {
        OneEachOf(ipc.registry, ipc.nextId, ipc.tables, r);
        label before:
        var done := Detach(r, h);
        GaveUpOne(tables, old@before(ipc.tables), ipc.tables, r, h);
        LetGoNext(owner0, old@before(owner), owner, tables, old@before(ipc.tables), r, h);
        OthersStep(user0, old@before(user), user, r, tables[r].slots[h].virt);
      } else {
        GaveUpSkip(tables, ipc.tables, r, h);
        LetGoSkip(owner0, owner, tables, r, h);
      }
    }

    /** `sched_sync_kernel_pml4`, and the copy at the end of `process_create`. */
    method CopyKernelHalf(r: nat)
      requires Inner() && Slot(r, Pml4) in tab && Slot(kernel, Pml4) in tab && r != kernel
      modifies `mem
      ensures Inner() && SameLookups(old(mem), tab, mem, tab) && SharesKernel(mem, r, kernel)
    {
      hide Core, Walk, SameLookups, SharesKernel;
      SameLookupsRefl(mem, tab);
      CoreUntracked(mem, head, freeCount, free, owner, tab, user, kernel, r, 256, 0);
      KernelTop(mem, head, freeCount, free, owner, tab, user, kernel);
      var i := 256;
      while i < 512
        invariant 256 <= i <= 512 && Inner() && SameLookups(old(mem), tab, mem, tab)
        invariant r in mem && |mem[r]| == 512 && kernel in mem && |mem[kernel]| == 512
        invariant forall j :: 256 <= j < i ==> mem[r][j] == mem[kernel][j]
      {
        CoreUntracked(mem, head, freeCount, free, owner, tab, user, kernel, r, i, mem[kernel][i]);
        SameLookupsTrans(old(mem), mem, SetWord(mem, r, i, mem[kernel][i]), tab);
        mem := SetWord(mem, r, i, mem[kernel][i]);
        i := i + 1;
      }
      SharedHalf(mem, r, kernel);
    }

    /** The memory side of `process_create`: a new address space with no user pages, and the kernel's upper half. */
    method ProcessCreate() returns (r: nat)
      requires Valid()
      modifies `mem, `head, `freeCount, `free, `owner, `tab, `procs, ipc
      ensures Valid()
      ensures old(free) == [] ==> r == 0 && procs == old(procs) && owner == old(owner) && ipc.tables == old(ipc.tables)
      ensures old(free) != [] ==> r !in old(procs) && procs == old(procs)[r := Proc(0x100_0000, [])]
      ensures old(free) != [] ==> ipc.tables == old(ipc.tables)[r := S.Table([], 0)] && ipc.registry == old(ipc.registry)
      ensures old(free) != [] ==> free == old(free)[1..] && owner == old(owner)[r := Table(Slot(r, Pml4))]
      ensures old(free) != [] ==> SharesKernel(mem, r, kernel) && SameLookups(old(mem), old(tab), mem, tab)
    {
      hide Core, Ledger, S.Sound, Lookup, SameLookups, SharesKernel;
      r := PmmAlloc(Heap);
      if r == 0 {
        return;
      }
      label taken:
      NotARoot(old(mem), old(head), old(freeCount), old(free), old(owner), tab, user, kernel, r);
      SameProcesses(old(owner), user, procs, ipc.tables, ipc.registry);
      assert owner[r := Table(Slot(r, Pml4))] == old(owner)[r := Table(Slot(r, Pml4))];
      LedgerRelabelled(old(owner), user, procs, ipc.tables, ipc.registry, r, Table(Slot(r, Pml4)));
      LedgerNewProcess(owner[r := Table(Slot(r, Pml4))], user, procs, ipc.tables, ipc.registry, r, Proc(FIRST_HEAP_VPTR, []));
      NoPagesOf(old(owner), user, procs, ipc.tables, ipc.registry, r);
      CoreNewRoot(mem, head, freeCount, free, owner, tab, user, kernel, r);
      SameLookupsTrans2(old(mem), tab, mem, tab, mem, tab[Slot(r, Pml4) := r]);
      owner, tab := owner[r := Table(Slot(r, Pml4))], tab[Slot(r, Pml4) := r];
      label rooted:
      CopyKernelHalf(r);
      SameLookupsTrans2(old(mem), old(tab), old@rooted(mem), tab, mem, tab);
      ipc.AddProcess(r);
      procs := procs[r := Proc(FIRST_HEAP_VPTR, [])];
    }

    /** `current_pml4[511] = master_pml4[511]` */
    method SyncLast(r: nat)
      requires Inner() && Slot(r, Pml4) in tab && Slot(kernel, Pml4) in tab
      modifies `mem
      ensures Inner() && SameWalks(old(mem), mem, tab, kernel) && Pointers(old(mem), tab, mem, tab, 0)
    {
      hide Core, Walk, Lookup, SameLookups, Pointers;
      SamePointers(mem, tab, 0);
      KernelTop(mem, head, freeCount, free, owner, tab, user, kernel);
      if r != kernel {
        CoreUntracked(mem, head, freeCount, free, owner, tab, user, kernel, r, 511, mem[kernel][511]);
        mem := SetWord(mem, r, 511, mem[kernel][511]);
        CoreSameWalks(old(mem), head, freeCount, free, owner, tab, user, mem, head, freeCount, free, owner, tab, user, kernel);
      }
    }

    /** One page of `heap_expand`, then the copy of the kernel's last entry into the current space `r`. */
    method HeapGrow(virt: nat, r: nat) returns (ok: bool)
      requires Valid() && r in procs && PageOf(virt).a == 511
      requires free != [] ==> Missing(tab.Keys, kernel, PageOf(virt)) < |free|
      modifies `mem, `head, `freeCount, `free, `owner, `tab, `user
      ensures Valid() && user == old(user)
      ensures ok <==> old(free) != []
      ensures !ok ==> owner == old(owner) && tab == old(tab) && mem == old(mem) && free == old(free)
      ensures ok ==> var t := Walk(mem, kernel, PageOf(virt));
              && OnlyChanges(old(mem), mem, old(tab), kernel, kernel, PageOf(virt), t) && Pointers(old(mem), old(tab), mem, tab, 0)
              && t.Some? && t.value.pte / PAGE_SIZE * PAGE_SIZE == old(free)[0] && t.value.pte % 8 == 3
      ensures ok ==> old(free)[0] in old(owner) && old(owner)[old(free)[0]] == Free && OnlyTables(old(owner)[old(free)[0] := Heap], owner)
      ensures ok ==> tab.Keys == old(tab).Keys + PathSlots(kernel, PageOf(virt))
      ensures ok ==> |free| == |old(free)| - 1 - Missing(old(tab).Keys, kernel, PageOf(virt))
    {
      hide Core, Ledger, S.Sound, Lookup, SameLookups, PageOf, Missing, OnlyChanges, OnlyTables, PathSlots, SameWalks, Pointers, Walk, Path;
      var phys := PmmAlloc(Heap);
      if phys == 0 {
        return false;
      }
      label taken:
      CoreSameWalks(old(mem), old(head), old(freeCount), old(free), old(owner), tab, user, mem, head, freeCount, free, owner, tab, user, kernel);
      LedgerRelabelled(old(owner), user, procs, ipc.tables, ipc.registry, phys, Heap);
      NotUser(virt);
      MapPage(kernel, phys, virt, PRESENT + RW);
      label mapped:
      ghost var t := Walk(mem, kernel, PageOf(virt));
      KernelBits(t.value.pte);
      SamePointersAny(old(mem), old@taken(mem), old(tab), 3);
      PointersTwice(old(mem), old(tab), old@taken(mem), old(tab), mem, tab, 3);
      PointersUser(old(mem), old(tab), mem, tab, 3, 0);
      LedgerTables(old@taken(owner), owner, user, procs, ipc.tables, ipc.registry);
      NoTop(kernel, PageOf(virt));
      SyncLast(r);
      WalksAround(old(mem), old@taken(mem), old@mapped(mem), mem, old(tab), tab, kernel, kernel, PageOf(virt), t);
      ChangedWalk(old(mem), mem, old(tab), kernel, kernel, PageOf(virt), t);
      PointersTwice(old(mem), old(tab), old@mapped(mem), tab, mem, tab, 0);
      return true;
    }

    /** `process_exit`'s loop over the regions. */
    method ReleaseAll(r: nat)
      requires Valid() && r in procs
      modifies `mem, `head, `freeCount, `free, `owner, `user, `procs
      ensures Valid() && r in procs && procs == old(procs)[r := procs[r]] && procs[r].regions == []
      ensures PagesGone(old(owner), owner, r) && OthersKept(old(user), user, r)
    {
      hide Core, Ledger, S.Sound, Gave, Lost, PagesGone, OthersKept;
      NothingGone(owner, user, r);
      while procs[r].regions != []
        invariant Valid() && r in procs && procs == old(procs)[r := procs[r]]
        invariant PagesGone(old(owner), owner, r) && OthersKept(old(user), user, r)
        decreases |procs[r].regions|
      {
        ReleaseFirst(r, old(owner), old(user));
      }
    }

    method ReleaseFirst(r: nat, ghost owner0: Owners, ghost user0: UserMap)
      requires Valid() && r in procs && procs[r].regions != []
      requires PagesGone(owner0, owner, r) && OthersKept(user0, user, r)
      modifies `mem, `head, `freeCount, `free, `owner, `user, `procs
      ensures Valid() && r in procs && procs == old(procs)[r := procs[r]] && |procs[r].regions| < |old(procs)[r].regions|
      ensures PagesGone(owner0, owner, r) && OthersKept(user0, user, r)
    {
      hide Core, Ledger, S.Sound, Gave, Lost, PagesGone, OthersKept;
      ghost var g := procs[r].regions[0];
      ReleaseRegion(r, 0);
      GoneStep(owner0, old(owner), owner, r, g.virt, RegionEnd(g));
      LostStep(user0, old(user), user, r, g.virt, RegionEnd(g));
      procs := procs[r := WithoutRegion(procs[r], 0)];
    }

    /** The end of `process_exit`: the tables are freed and the process is gone. */
    method TearDown(r: nat)
      requires Valid() && r in procs && r != kernel && procs[r].regions == [] && r in ipc.tables && ipc.tables[r].slots == []
      modifies `mem, `head, `freeCount, `free, `owner, `tab, `procs, ipc
      ensures Valid() && procs == old(procs) - {r} && ipc.tables == old(ipc.tables) - {r}
      ensures owner.Keys == old(owner).Keys && forall f :: f in owner ==> owner[f] == Label(old(owner)[f], r, {})
      ensures forall v :: (r, v) !in user
      ensures forall f :: f in old(owner) && old(owner)[f].Page? ==> old(owner)[f].root != r
    {
      hide Core, Ledger, S.Sound, Start, SameLookups, Lookup, HeldFor, Torn, TablesOf;
      ghost var st := Snapshot(mem, tab, owner, r, kernel);
      LedgerEmptied(owner, user, procs, ipc.tables, ipc.registry, r);
      ipc.RemoveProcess(r);
      Detached(mem, head, freeCount, free, owner, tab, user, kernel, r);
      owner, tab := HeldFor(owner, r), Without(tab, r);
      FreePml4(st, r, TablesOf(st.tab, r));
      LedgerTorn(st, mem, owner, user, procs - {r}, ipc.tables, ipc.registry);
      procs := procs - {r};
    }

    /** The memory side of `process_exit`: exactly what the process alone held is free again, each frame once. */
    method ProcessExit(r: nat)
      requires Valid() && r in procs
      modifies `mem, `head, `freeCount, `free, `owner, `tab, `user, `procs, ipc
      ensures Valid()
      ensures r == kernel ==> procs == old(procs) && owner == old(owner) && free == old(free) && user == old(user)
      ensures r != kernel ==> procs == old(procs) - {r} && ipc.tables == old(ipc.tables) - {r}
      ensures r in old(ipc.tables) && (r != kernel ==> Exited(old(owner), owner, old(ipc.tables), r))
      ensures r != kernel ==> OthersKept(old(user), user, r) && forall v :: (r, v) !in user
      ensures Distinct(free) && forall f :: f in owner ==> (owner[f] == Free <==> f in free)
    {
      hide Core, Ledger, S.Sound, Lookup, LetGo, OthersKept, PagesGone, Exited, Distinct, Label, HoldsFirst;
      FreeList(mem, head, freeCount, free, owner, tab, user, kernel);
      SameProcesses(owner, user, procs, ipc.tables, ipc.registry);
      if r == kernel {
        return;
      }
      ghost var tables, n := ipc.tables, |ipc.tables[r].slots|;
      Cleanup(r);
      label cleaned:
      ReleaseAll(r);
      label released:
      OthersTwice(old(user), old@cleaned(user), user, r);
      DropUpdated(old(procs), r, procs[r]);
      DropUpdated(tables, r, S.Table([], 0));
      TearDown(r);
      ExitedAll(old(owner), old@cleaned(owner), old@released(owner), owner, tables, r);
      FreeList(mem, head, freeCount, free, owner, tab, user, kernel);
    }
  }

  lemma {:induction false} EmptyHead(mem: Memory, head: nat, count: nat, free: seq<nat>, owner: Owners, tab: Tables, user: UserMap, kernel: nat)
    requires Core(mem, head, count, free, owner, tab, user, kernel)
    ensures head == 0 <==> free == []
    ensures count == |free|
  {
    hide TreesOk, UserMaps;
    if free != [] { assert Linked(mem, free, 0); }
  }

  /** A tracked entry says whether its table is there. */
  lemma {:induction false} EntryOf(mem: Memory, tab: Tables, owner: Owners, kernel: nat, s: Slot, i: nat)
    requires TreesOk(mem, tab, owner, kernel) && s in tab && Tracked(s, i, kernel)
    ensures tab[s] in mem && |mem[tab[s]]| == 512
    ensures var c := Slot(s.root, Child(s.node, i));
            && (Present(mem[tab[s]][i]) <==> c in tab)
            && (c in tab ==> AddrOf(mem[tab[s]][i]) == tab[c])
  {
    assert SlotOk(mem, tab, owner, kernel, s) && EntryOk(mem, tab, s, i);
  }

  lemma {:induction false} BootLedger(m: Memory, kernel: nat, heapVptr: nat, tab: Tables, owner: Owners)
    requires forall r :: Slot(r, Pml4) in tab <==> r == kernel
    requires forall f :: f in owner ==> owner[f].Table? || owner[f].Heap?
    requires forall v: nat :: UserAddr(v) ==> Lookup(m, tab, kernel, PageOf(v)) == None
    requires heapVptr % PAGE_SIZE == 0 && heapVptr <= USER_END
    ensures UserMaps(m, tab, map[])
    ensures Ledger(owner, map[], map[kernel := Proc(heapVptr, [])], map[kernel := S.Table([], 0)], [])
  {
    hide Lookup;
  }

  lemma {:induction false} TopTable(mem: Memory, head: nat, count: nat, free: seq<nat>, owner: Owners, tab: Tables, user: UserMap, kernel: nat, root: nat)
    requires Core(mem, head, count, free, owner, tab, user, kernel) && Slot(root, Pml4) in tab
    ensures tab[Slot(root, Pml4)] == root
  {
    assert SlotOk(mem, tab, owner, kernel, Slot(root, Pml4));
  }

  lemma {:induction false} CoreWalks(mem: Memory, head: nat, count: nat, free: seq<nat>, owner: Owners, tab: Tables, user: UserMap,
                  mem': Memory, head': nat, count': nat, free': seq<nat>, owner': Owners, tab': Tables, user': UserMap,
                  kernel: nat, r: nat, p: VPage, t: Option<Steps>)
    requires Core(mem, head, count, free, owner, tab, user, kernel) && Core(mem', head', count', free', owner', tab', user', kernel)
    requires forall q :: Slot(q, Pml4) in tab ==> Slot(q, Pml4) in tab'
    requires forall q, w :: Lookup(mem', tab', q, w) == if q == r && w == p then t else Lookup(mem, tab, q, w)
    ensures OnlyChanges(mem, mem', tab, kernel, r, p, t)
  {
    hide FramesOk, TreesOk, UserMaps, Lookup;
    LeafWalks(mem, mem', tab, tab', owner, owner', kernel, r, p, t);
  }

  /** For user pages, the walk is what the user map records. */
  lemma {:induction false} WalkMapped(mem: Memory, head: nat, count: nat, free: seq<nat>, owner: Owners, tab: Tables, user: UserMap, kernel: nat,
                   root: nat, virt: nat)
    requires Core(mem, head, count, free, owner, tab, user, kernel) && Slot(root, Pml4) in tab
    requires Tracked(Slot(root, Pml4), PageOf(virt).a, kernel)
    ensures UserAddr(virt) ==> Target(Walk(mem, root, PageOf(virt))) == MappedAt(user, root, virt)
  {
    hide FramesOk, TreesOk, Lookup, Walk;
    WalkIsLookup(mem, tab, owner, kernel, root, PageOf(virt));
  }

  /** The tables a walk visits are in memory; where one is missing, there is no translation. */
  lemma {:induction false} WalkInMemory(mem: Memory, head: nat, count: nat, free: seq<nat>, owner: Owners, tab: Tables, user: UserMap, kernel: nat,
                     root: nat, p: VPage)
    requires Core(mem, head, count, free, owner, tab, user, kernel) && Slot(root, Pml4) in tab
    requires Tracked(Slot(root, Pml4), p.a, kernel) && p.b < 512 && p.c < 512 && p.d < 512
    ensures root in mem && |mem[root]| == 512
    ensures !Present(mem[root][p.a]) ==> Walk(mem, root, p) == None
    ensures Present(mem[root][p.a]) ==> var pdpt := AddrOf(mem[root][p.a]);
              && pdpt in mem && |mem[pdpt]| == 512 && (!Present(mem[pdpt][p.b]) ==> Walk(mem, root, p) == None)
              && (Present(mem[pdpt][p.b]) ==> var pd := AddrOf(mem[pdpt][p.b]);
                   && pd in mem && |mem[pd]| == 512 && (!Present(mem[pd][p.c]) ==> Walk(mem, root, p) == None)
                   && (Present(mem[pd][p.c]) ==> var s, pt := Slot(root, Pt(p.a, p.b, p.c)), AddrOf(mem[pd][p.c]);
                        pt in mem && |mem[pt]| == 512 && s in tab && tab[s] == pt))
  {
    hide FramesOk, UserMaps, TreesOk, AddrOf;
    TopTable(mem, head, count, free, owner, tab, user, kernel, root);
    var s0, s1, s2, s3 := Slot(root, Pml4), Slot(root, Pdpt(p.a)), Slot(root, Pd(p.a, p.b)), Slot(root, Pt(p.a, p.b, p.c));
    EntryOf(mem, tab, owner, kernel, s0, p.a);
    if s1 in tab {
      EntryOf(mem, tab, owner, kernel, s1, p.b);
      if s2 in tab {
        EntryOf(mem, tab, owner, kernel, s2, p.c);
        if s3 in tab { TableHeld(mem, tab, owner, kernel, s3); }
      }
    }
  }

  lemma {:induction false} TableHeld(mem: Memory, tab: Tables, owner: Owners, kernel: nat, s: Slot)
    requires TreesOk(mem, tab, owner, kernel) && s in tab
    ensures tab[s] in mem && |mem[tab[s]]| == 512
  {
    assert SlotOk(mem, tab, owner, kernel, s);
  }

  lemma {:induction false} NoneUnchanged(mem: Memory, tab: Tables, kernel: nat, r: nat, p: VPage)
    ensures Walk(mem, r, p) == None ==> OnlyChanges(mem, mem, tab, kernel, r, p, None)
  {
  }

  lemma {:induction false} LedgerTables(owner: Owners, owner': Owners, user: UserMap, lay: Layout, tables: map<nat, S.Table>, reg: seq<S.Region>)
    requires Ledger(owner, user, lay, tables, reg) && OnlyTables(owner, owner')
    ensures Ledger(owner', user, lay, tables, reg)
  {
    hide Ledger;
    LedgerOthers(owner, owner', user, lay, tables, reg);
  }

  lemma {:induction false} TookOne(owner0: Owners, owner1: Owners, owner2: Owners, r: nat, v: nat, f: nat)
    requires f in owner0 && owner0[f] == Free && owner1 == owner0[f := Page(r, v)] && OnlyTables(owner1, owner2) && UserAddr(v)
    ensures Took(owner0, owner2, r, v, v + 1)
  {
  }

  lemma {:induction false} NoTop(root: nat, p: VPage)
    ensures forall r :: Slot(r, Pml4) !in PathSlots(root, p)
  {
  }

  lemma {:induction false} TookNone(owner: Owners, user: UserMap, r: nat, v: nat)
    ensures Took(owner, owner, r, v, v) && Gained(user, user, r, v, v)
    ensures Gave(owner, owner, r, v, v) && Lost(user, user, r, v, v)
  {
  }

  lemma {:induction false} TookMore(owner0: Owners, owner1: Owners, owner2: Owners, r: nat, v: nat, i: nat)
    requires Took(owner0, owner1, r, v, v + i * PAGE_SIZE)
    requires Took(owner1, owner2, r, v + i * PAGE_SIZE, v + i * PAGE_SIZE + 1)
    ensures Took(owner0, owner2, r, v, v + (i + 1) * PAGE_SIZE)
  {
  }

  lemma {:induction false} GainedMore(user0: UserMap, user1: UserMap, user2: UserMap, r: nat, v: nat, i: nat, f: nat)
    requires UserAddr(v + i * PAGE_SIZE)
    requires Gained(user0, user1, r, v, v + i * PAGE_SIZE)
    requires (r, v + i * PAGE_SIZE) !in user1 && user2 == user1[(r, v + i * PAGE_SIZE) := f]
    ensures Gained(user0, user2, r, v, v + (i + 1) * PAGE_SIZE)
  {
    NextInRange(v, v + i * PAGE_SIZE, v + (i + 1) * PAGE_SIZE);
    hide InRange;
  }

  /** Page-aligned addresses within a page are its start. */
  lemma {:induction false} NextPage(v: nat, w: nat)
    requires v % PAGE_SIZE == 0 && w % PAGE_SIZE == 0
    ensures v <= w < v + PAGE_SIZE <==> w == v
  {
  }

  lemma {:induction false} GrownStep(p: Proc, i: nat)
    ensures RegionEnd(GrownBy(p, i).regions[0]) == GrownBy(p, i).heapVptr
    ensures GrowFirst(GrownBy(p, i)) == GrownBy(p, i + 1)
  {
    assert [Region(p.heapVptr, 0, i)] + p.regions == [Region(p.heapVptr, 0, i)] + p.regions;
  }

  lemma {:induction false} FramesForOne(have: set<Slot>, root: nat, v: nat, n: nat)
    requires n > 0
    ensures FramesFor(have, root, v, n) ==
              1 + Missing(have, root, PageOf(v)) + FramesFor(have + PathSlots(root, PageOf(v)), root, v + PAGE_SIZE, n - 1)
  {
  }

  lemma {:induction false} FramesForNone(have: set<Slot>, root: nat, v: nat)
    ensures FramesFor(have, root, v, 0) == 0
  {
  }

  /** The recorded first frame of a region plays no part in the ledger. */
  lemma {:induction false} SetPhys(owner: Owners, user: UserMap, lay: Layout, lay': Layout, tables: map<nat, S.Table>, reg: seq<S.Region>, r: nat, f: nat)
    requires Ledger(owner, user, lay, tables, reg) && r in lay && lay[r].regions != []
    requires lay' == lay[r := lay[r].(regions := lay[r].regions[0 := lay[r].regions[0].(phys := f)])]
    ensures Ledger(owner, user, lay', tables, reg)
  {
    forall v: nat ensures InRegions(lay'[r].regions, v) <==> InRegions(lay[r].regions, v) {
      SameSpans(lay[r].regions, lay'[r].regions, v);
      SameSpans(lay'[r].regions, lay[r].regions, v);
    }
    assert Layouts(lay') by { assert Stacked(lay[r]); }
    hide Ledger, InRegions;
    LedgerRelayout(owner, user, lay, lay', tables, reg);
  }

  lemma {:induction false} SameSpans(gs: seq<Region>, hs: seq<Region>, v: nat)
    requires |gs| == |hs| && forall k :: 0 <= k < |gs| ==> gs[k].virt == hs[k].virt && gs[k].pages == hs[k].pages
    ensures InRegions(gs, v) ==> InRegions(hs, v)
  {
    if InRegions(gs, v) {
      var k :| 0 <= k < |gs| && Inside(gs[k], v);
      assert Inside(hs[k], v);
    }
  }

  lemma {:induction false} GrownDone(p: Proc, v: nat, n: nat, f: nat)
    requires v == p.heapVptr
    ensures Proc(v + n * PAGE_SIZE, [Region(v, f, n)] + p.regions)
         == GrownBy(p, n).(regions := GrownBy(p, n).regions[0 := GrownBy(p, n).regions[0].(phys := f)])
  {
  }

  lemma {:induction false} RootOf(lay: Layout, r: nat, k: nat)
    requires HasPage(lay, r, k)
    ensures r in lay && k < |lay[r].regions| && lay[r].regions[k].pages > 0
  {
  }

  lemma {:induction false} UserFrame(mem: Memory, head: nat, count: nat, free: seq<nat>, owner: Owners, tab: Tables, user: UserMap, kernel: nat, f: nat)
    requires Core(mem, head, count, free, owner, tab, user, kernel) && f in owner
    ensures f != 0
  {
    hide TreesOk, UserMaps;
  }

  /** Only one frame is private to a page. */
  lemma {:induction false} GaveOne(owner: Owners, user: UserMap, lay: Layout, tables: map<nat, S.Table>, reg: seq<S.Region>, r: nat, v: nat)
    requires Ledger(owner, user, lay, tables, reg)
    requires (r, v) in user && user[(r, v)] in owner && owner[user[(r, v)]] == Page(r, v) && UserAddr(v)
    ensures Gave(owner, owner[user[(r, v)] := Free], r, v, v + 1)
  {
  }

  lemma {:induction false} GaveMore(owner0: Owners, owner1: Owners, owner2: Owners, r: nat, v: nat, i: nat)
    requires UserAddr(v + i * PAGE_SIZE)
    requires Gave(owner0, owner1, r, v, v + i * PAGE_SIZE) && Gave(owner1, owner2, r, v + i * PAGE_SIZE, v + i * PAGE_SIZE + 1)
    ensures Gave(owner0, owner2, r, v, v + (i + 1) * PAGE_SIZE)
  {
    NextInRange(v, v + i * PAGE_SIZE, v + (i + 1) * PAGE_SIZE);
    ThisInRange(v + i * PAGE_SIZE, v + i * PAGE_SIZE + 1);
    hide InRange;
  }

  lemma {:induction false} NextInRange(lo: nat, mid: nat, hi: nat)
    requires UserAddr(mid) && hi == mid + PAGE_SIZE && lo <= mid
    ensures forall w: nat :: InRange(w, lo, hi) <==> InRange(w, lo, mid) || w == mid
  {
    forall w: nat | UserAddr(w) ensures mid <= w < hi <==> w == mid {
      NextPage(mid, w);
    }
  }

  lemma {:induction false} ThisInRange(mid: nat, next: nat)
    requires UserAddr(mid) && next == mid + 1
    ensures forall w: nat :: InRange(w, mid, next) <==> w == mid
  {
  }

  lemma {:induction false} LostMore(user0: UserMap, user1: UserMap, user2: UserMap, r: nat, v: nat, i: nat)
    requires UserAddr(v + i * PAGE_SIZE)
    requires Lost(user0, user1, r, v, v + i * PAGE_SIZE) && user2 == user1 - {(r, v + i * PAGE_SIZE)}
    ensures Lost(user0, user2, r, v, v + (i + 1) * PAGE_SIZE)
  {
    NextInRange(v, v + i * PAGE_SIZE, v + (i + 1) * PAGE_SIZE);
    hide InRange;
  }

  lemma {:induction false} ShrunkNone(p: Proc, k: nat)
    requires k < |p.regions|
    ensures ShrunkBy(p, k, 0) == p
  {
  }

  lemma {:induction false} ShrunkStep(p: Proc, k: nat, i: nat)
    requires k < |p.regions| && i < p.regions[k].pages
    ensures ShrunkBy(p, k, i).regions[k].pages > 0 && ShrunkBy(p, k, i).regions[k].virt == p.regions[k].virt + i * PAGE_SIZE
    ensures ShrinkAt(ShrunkBy(p, k, i), k) == ShrunkBy(p, k, i + 1)
  {
  }

  lemma {:induction false} ShrunkAway(p: Proc, k: nat)
    requires k < |p.regions|
    ensures WithoutRegion(ShrunkBy(p, k, p.regions[k].pages), k) == WithoutRegion(p, k)
  {
  }

  lemma {:induction false} FreshId(reg: seq<S.Region>, nextId: nat, tables: map<nat, S.Table>)
    requires S.Sound(reg, nextId, tables)
    ensures forall i :: 0 <= i < |reg| ==> reg[i].id != nextId
  {
  }

  lemma {:induction false} RoomAdds(s: seq<S.Entry>, e: S.Entry)
    requires e.active
    ensures AddsHandle(s, S.WithRoom(s)[S.FirstInactive(s) := e], S.FirstInactive(s), e)
  {
  }

  lemma {:induction false} SharedFrame(mem: Memory, head: nat, count: nat, free: seq<nat>, owner: Owners, tab: Tables, user: UserMap, kernel: nat, f: nat)
    requires Core(mem, head, count, free, owner, tab, user, kernel) && f in owner
    ensures FrameAddr(f)
  {
    hide TreesOk, UserMaps;
  }

  lemma {:induction false} SameProcesses(owner: Owners, user: UserMap, lay: Layout, tables: map<nat, S.Table>, reg: seq<S.Region>)
    requires Ledger(owner, user, lay, tables, reg)
    ensures tables.Keys == lay.Keys
  {
  }

  /** A region has one reference exactly when the handle is the only one. */
  lemma {:induction false} LastHandle(reg: seq<S.Region>, nextId: nat, tables: map<nat, S.Table>, r: nat, h: nat)
    requires S.Sound(reg, nextId, tables) && r in tables && h < |tables[r].slots| && tables[r].slots[h].active
    ensures var k := S.Where(reg, tables[r].slots[h].id);
            k < |reg| && reg[k].refs >= 1 && (reg[k].refs <= 1 <==> OnlyOne(tables, r, h))
    ensures S.OneEach(tables[r].slots)
    ensures forall i, j :: 0 <= i < j < |reg| ==> reg[i].id != reg[j].id
  {
    S.HandleResolves(reg, nextId, tables, r, h);
    var id := tables[r].slots[h].id;
    var k := S.Where(reg, id);
    assert S.TableOk(reg, tables[r]);
    assert reg[k].refs == |S.Handles(tables, id)|;
    OneHandle(tables, r, h);
  }

  lemma {:induction false} OneHandle(tables: map<nat, S.Table>, r: nat, h: nat)
    requires r in tables && h < |tables[r].slots| && tables[r].slots[h].active
    ensures var n := |S.Handles(tables, tables[r].slots[h].id)|; n >= 1 && (n <= 1 <==> OnlyOne(tables, r, h))
  {
    var id := tables[r].slots[h].id;
    assert (r, h) in S.Handles(tables, id);
    if |S.Handles(tables, id)| <= 1 { S.OnlyHandle(tables, r, h, id); }
    if OnlyOne(tables, r, h) { assert S.Handles(tables, id) == {(r, h)}; }
  }

  lemma {:induction false} DetachLetsGo(owner: Owners, user: UserMap, lay: Layout, tables: map<nat, S.Table>, reg: seq<S.Region>, r: nat, h: nat, k: nat)
    requires Ledger(owner, user, lay, tables, reg) && r in tables && h < |tables[r].slots|
    requires k < |reg| && reg[k].id == tables[r].slots[h].id && k == S.Where(reg, reg[k].id)
    requires reg[k].refs <= 1 <==> OnlyOne(tables, r, h)
    ensures LetGoOne(owner, ReleasedIf(owner, reg[k].refs <= 1, reg[k].phys), tables, r, h)
  {
    hide UserOwned, PagesMapped, RegionsBacked, SharedHeld, HandlesMapped, Layouts;
  }

  lemma {:induction false} LetGoNone(owner: Owners, user: UserMap, tables: map<nat, S.Table>, r: nat)
    requires r in tables
    ensures LetGo(owner, owner, tables, r, 0) && OthersKept(user, user, r) && GaveUp(tables, tables, r, 0)
  {
  }

  lemma {:induction false} SlotKept(tables: map<nat, S.Table>, now: map<nat, S.Table>, r: nat, h: nat)
    requires GaveUp(tables, now, r, h) && r in now && h < |now[r].slots|
    ensures h < |tables[r].slots| && now[r].slots[h] == tables[r].slots[h]
  {
  }

  lemma {:induction false} GaveUpOne(tables: map<nat, S.Table>, now: map<nat, S.Table>, next: map<nat, S.Table>, r: nat, h: nat)
    requires GaveUp(tables, now, r, h) && r in now && h < |now[r].slots| && next == S.Cleared(now, r, h)
    ensures GaveUp(tables, next, r, h + 1)
  {
  }

  lemma {:induction false} GaveUpSkip(tables: map<nat, S.Table>, now: map<nat, S.Table>, r: nat, h: nat)
    requires GaveUp(tables, now, r, h) && r in now && h < |now[r].slots| && !now[r].slots[h].active
    ensures GaveUp(tables, now, r, h + 1)
  {
  }

  lemma {:induction false} OneEachOf(reg: seq<S.Region>, nextId: nat, tables: map<nat, S.Table>, r: nat)
    requires S.Sound(reg, nextId, tables) && r in tables
    ensures S.OneEach(tables[r].slots)
  {
    assert S.TableOk(reg, tables[r]);
  }

  lemma {:induction false} OthersStep(user0: UserMap, user1: UserMap, user2: UserMap, r: nat, v: nat)
    requires OthersKept(user0, user1, r) && user2 == user1 - {(r, v)}
    ensures OthersKept(user0, user2, r)
  {
  }

  lemma {:induction false} LetGoSkip(owner0: Owners, owner1: Owners, tables: map<nat, S.Table>, r: nat, h: nat)
    requires r in tables && h < |tables[r].slots| && !tables[r].slots[h].active && LetGo(owner0, owner1, tables, r, h)
    ensures LetGo(owner0, owner1, tables, r, h + 1)
  {
    forall id ensures HoldsFirst(tables[r].slots, h + 1, id) <==> HoldsFirst(tables[r].slots, h, id) {}
  }

  /** One more handle given up: its frame is freed exactly when no other process holds the region. */
  lemma {:induction false} LetGoNext(owner0: Owners, owner1: Owners, owner2: Owners, tables: map<nat, S.Table>, now: map<nat, S.Table>, r: nat, h: nat)
    requires r in tables && h < |tables[r].slots| && tables[r].slots[h].active && LetGo(owner0, owner1, tables, r, h)
    requires GaveUp(tables, now, r, h) && r in now && h < |now[r].slots| && S.OneEach(now[r].slots) && LetGoOne(owner1, owner2, now, r, h)
    ensures LetGo(owner0, owner2, tables, r, h + 1)
  {
    var id := tables[r].slots[h].id;
    OnlyWhen(tables, now, r, h);
    HoldsNext(tables[r].slots, h);
    hide HoldsFirst, HeldElsewhere, OnlyOne;
  }

  lemma {:induction false} HoldsNext(s: seq<S.Entry>, h: nat)
    requires h < |s| && s[h].active
    ensures forall id :: HoldsFirst(s, h + 1, id) <==> HoldsFirst(s, h, id) || id == s[h].id
  {
    forall id ensures HoldsFirst(s, h + 1, id) <==> HoldsFirst(s, h, id) || id == s[h].id {
      assert S.Names(s[h], s[h].id);
    }
  }

  /** With the earlier handles given up, a handle is the only one when no other process holds the region. */
  lemma {:induction false} OnlyWhen(tables: map<nat, S.Table>, now: map<nat, S.Table>, r: nat, h: nat)
    requires GaveUp(tables, now, r, h) && r in now && h < |now[r].slots| && now[r].slots[h].active && S.OneEach(now[r].slots)
    ensures h < |tables[r].slots| && (OnlyOne(now, r, h) <==> !HeldElsewhere(tables, r, tables[r].slots[h].id))
  {
    var id := now[r].slots[h].id;
    if !OnlyOne(now, r, h) {
      var p, g :| p in now && 0 <= g < |now[p].slots| && S.Names(now[p].slots[g], id) && !(p == r && g == h);
      assert p != r;
      assert HoldsFirst(tables[p].slots, |tables[p].slots|, id);
    }
    if HeldElsewhere(tables, r, id) {
      var p :| p in tables && p != r && HoldsFirst(tables[p].slots, |tables[p].slots|, id);
      var g :| 0 <= g < |tables[p].slots| && S.Names(tables[p].slots[g], id);
      assert p in now && S.Names(now[p].slots[g], id);
    }
  }

  lemma {:induction false} AllGaveUp(tables: map<nat, S.Table>, now: map<nat, S.Table>, r: nat, n: nat)
    requires GaveUp(tables, now, r, n) && r in now && n == |now[r].slots|
    ensures forall h :: 0 <= h < n ==> !now[r].slots[h].active
    ensures n == |tables[r].slots| && now[r := S.Table([], 0)] == tables[r := S.Table([], 0)]
  {
  }

  lemma {:induction false} DropLedger(owner: Owners, user: UserMap, lay: Layout, tables: map<nat, S.Table>, reg: seq<S.Region>, r: nat)
    requires Ledger(owner, user, lay, tables, reg) && r in tables
    requires forall h :: 0 <= h < |tables[r].slots| ==> !tables[r].slots[h].active
    ensures Ledger(owner, user, lay, tables[r := S.Table([], 0)], reg)
  {
    hide UserOwned, PagesMapped, RegionsBacked, RegionFrames, Layouts;
    forall id, v ensures !HandleAt(tables[r].slots, id, v) {}
  }

  lemma {:induction false} SamePointers(mem: Memory, tab: Tables, flags: nat)
    ensures Pointers(mem, tab, mem, tab, flags)
  {
  }

  /** Without new tables, the flags do not matter. */
  lemma {:induction false} SamePointersAny(mem: Memory, mem': Memory, tab: Tables, flags: nat)
    requires Pointers(mem, tab, mem', tab, 0)
    ensures Pointers(mem, tab, mem', tab, flags)
  {
    hide Link;
  }

  lemma {:induction false} PointersTwice(mem0: Memory, tab0: Tables, mem1: Memory, tab1: Tables, mem2: Memory, tab2: Tables, flags: nat)
    requires Pointers(mem0, tab0, mem1, tab1, flags) && Pointers(mem1, tab1, mem2, tab2, flags)
    ensures Pointers(mem0, tab0, mem2, tab2, flags)
  {
    hide Link;
  }

  lemma {:induction false} PointersUser(mem: Memory, tab: Tables, mem': Memory, tab': Tables, flags: nat, flags': nat)
    requires Pointers(mem, tab, mem', tab', flags) && flags / 4 % 2 == flags' / 4 % 2
    ensures Pointers(mem, tab, mem', tab', flags')
  {
    hide Link;
  }

  lemma {:induction false} UserBits(e: nat)
    requires e % 2 == 1 && e % PAGE_SIZE / 2 == 3
    ensures e % 8 == 7
  {
    EntryParts(e);
  }

  /** The low bits of a word are those of its low 12 bits. */
  lemma {:induction false} EntryParts(e: nat)
    ensures e % 2 == e % PAGE_SIZE % 2 && e % 8 == e % PAGE_SIZE % 8 && e / 2 % 2 == e % PAGE_SIZE / 2 % 2 && e / 4 % 2 == e % PAGE_SIZE / 4 % 2
  {
    var q, r := e / PAGE_SIZE, e % PAGE_SIZE;
    assert e == q * PAGE_SIZE + r;
    LowTwo(q * 2048, r);
    LowEight(q * 512, r);
    SecondBit(q * 1024, r);
    ThirdBit(q * 512, r);
  }

  lemma {:induction false} LowTwo(x: nat, r: nat)
    ensures (2 * x + r) % 2 == r % 2
  {
  }

  lemma {:induction false} LowEight(x: nat, r: nat)
    ensures (8 * x + r) % 8 == r % 8
  {
  }

  lemma {:induction false} SecondBit(x: nat, r: nat)
    ensures (4 * x + r) / 2 % 2 == r / 2 % 2
  {
    assert (4 * x + r) / 2 == 2 * x + r / 2;
    LowTwo(x, r / 2);
  }

  lemma {:induction false} ThirdBit(x: nat, r: nat)
    ensures (8 * x + r) / 4 % 2 == r / 4 % 2
  {
    assert (8 * x + r) / 4 == 2 * x + r / 4;
    LowTwo(x, r / 4);
  }

  lemma {:induction false} KernelBits(e: nat)
    requires e % 2 == 1 && e % PAGE_SIZE / 2 == 1
    ensures e % 8 == 3
  {
    EntryParts(e);
  }

  lemma {:induction false} SharedBits(e: nat, flags: nat)
    requires e % 2 == 1 && e % PAGE_SIZE / 2 == (flags / RW % 2 * RW + USER) / 2
    ensures e / 4 % 2 == 1 && e / 2 % 2 == flags / 2 % 2
  {
    EntryParts(e);
    var b := flags / 2 % 2;
    assert e % PAGE_SIZE == 2 * (b + 2) + 1;
  }

  lemma {:induction false} WalksThen(mem0: Memory, mem1: Memory, mem2: Memory, tab: Tables, kernel: nat, r: nat, p: VPage, t: Option<Steps>)
    requires SameWalks(mem0, mem1, tab, kernel) && OnlyChanges(mem1, mem2, tab, kernel, r, p, t)
    ensures OnlyChanges(mem0, mem2, tab, kernel, r, p, t)
  {
    hide Walk;
  }

  lemma {:induction false} GrantedNone(mem: Memory, tab: Tables, kernel: nat, r: nat, v: nat)
    ensures Granted(mem, tab, mem, tab, kernel, r, v, 0)
  {
    hide Walk, Link;
  }

  lemma {:induction false} GrantedMore(mem0: Memory, tab0: Tables, mem1: Memory, tab1: Tables, mem2: Memory, tab2: Tables, kernel: nat, r: nat, v: nat, i: nat)
    requires Granted(mem0, tab0, mem1, tab1, kernel, r, v, i) && Slot(r, Pml4) in tab1
    requires OpenPage(mem2, r, v + i * PAGE_SIZE) && Pointers(mem1, tab1, mem2, tab2, 7) && UserAddr(v + i * PAGE_SIZE)
    requires OnlyChanges(mem1, mem2, tab1, kernel, r, PageOf(v + i * PAGE_SIZE), Walk(mem2, r, PageOf(v + i * PAGE_SIZE)))
    ensures Granted(mem0, tab0, mem2, tab2, kernel, r, v, i + 1)
  {
    hide Walk, PageOf, Link;
    PointersTwice(mem0, tab0, mem1, tab1, mem2, tab2, 7);
    WalksGrow(mem0, mem1, mem2, tab0, tab1, kernel, r, v, i, Walk(mem2, r, PageOf(v + i * PAGE_SIZE)));
    PagesOpen(mem1, mem2, tab1, kernel, r, v, i, Walk(mem2, r, PageOf(v + i * PAGE_SIZE)));
  }

  lemma {:induction false} WalksGrow(mem0: Memory, mem1: Memory, mem2: Memory, tab0: Tables, tab1: Tables, kernel: nat, r: nat, v: nat, i: nat, t: Option<Steps>)
    requires OtherWalks(mem0, mem1, tab0, kernel, r, v, i) && OnlyChanges(mem1, mem2, tab1, kernel, r, PageOf(v + i * PAGE_SIZE), t)
    requires forall s :: s in tab0 ==> s in tab1
    ensures OtherWalks(mem0, mem2, tab0, kernel, r, v, i + 1)
  {
    hide Walk, PageOf;
  }

  /** Mapping one page of a process leaves its other pages open. */
  lemma {:induction false} PagesOpen(mem1: Memory, mem2: Memory, tab: Tables, kernel: nat, r: nat, v: nat, i: nat, t: Option<Steps>)
    requires OnlyChanges(mem1, mem2, tab, kernel, r, PageOf(v + i * PAGE_SIZE), t) && OpenPage(mem2, r, v + i * PAGE_SIZE)
    requires forall j: nat :: j < i ==> OpenPage(mem1, r, v + j * PAGE_SIZE)
    requires Slot(r, Pml4) in tab && UserAddr(v + i * PAGE_SIZE)
    ensures forall j: nat :: j < i + 1 ==> OpenPage(mem2, r, v + j * PAGE_SIZE)
  {
    hide Walk, PageOf;
    forall j: nat | j < i + 1 ensures OpenPage(mem2, r, v + j * PAGE_SIZE) {
      if j < i {
        EarlierPage(v, j, i);
        PageOfUser(v + j * PAGE_SIZE, v + i * PAGE_SIZE);
        assert Walk(mem2, r, PageOf(v + j * PAGE_SIZE)) == Walk(mem1, r, PageOf(v + j * PAGE_SIZE));
      }
    }
  }

  lemma {:induction false} EarlierPage(v: nat, j: nat, i: nat)
    requires j < i && (v + i * PAGE_SIZE) % PAGE_SIZE == 0
    ensures v + j * PAGE_SIZE < v + i * PAGE_SIZE && (v + j * PAGE_SIZE) % PAGE_SIZE == 0
  {
  }

  /** All tables of the space `r` are open to the process. */
  ghost predicate OpenTables(mem: Memory, tab: Tables, r: nat) {
    forall c :: c in tab && c.root == r && !c.node.Pml4? ==> Link(mem, tab, c) % 8 == 7
  }

  /** New tables made with the access bits of `pmalloc` keep a space open. */
  lemma {:induction false} StillOpen(mem: Memory, tab: Tables, mem': Memory, tab': Tables, r: nat, flags: nat)
    requires OpenTables(mem, tab, r) && Pointers(mem, tab, mem', tab', flags) && flags / 4 % 2 == 1
    ensures OpenTables(mem', tab', r)
  {
    hide Link;
    forall c | c in tab' && c.root == r && !c.node.Pml4? ensures Link(mem', tab', c) % 8 == 7 {
      if c !in tab { OpenBits(Link(mem', tab', c), flags); }
    }
  }

  lemma {:induction false} OpenBits(e: nat, flags: nat)
    requires e % PAGE_SIZE == 3 + flags / 4 % 2 * 4 && flags / 4 % 2 == 1
    ensures e % 8 == 7
  {
    EntryParts(e);
  }

  /** In an open space, the process may read and write an open page: all four words of the walk say so. */
  lemma {:induction false} MayWrite(mem: Memory, head: nat, count: nat, free: seq<nat>, owner: Owners, tab: Tables, user: UserMap, kernel: nat, r: nat, v: nat)
    requires Core(mem, head, count, free, owner, tab, user, kernel) && Slot(r, Pml4) in tab
    requires UserAddr(v) && OpenTables(mem, tab, r) && OpenPage(mem, r, v)
    ensures var t := Walk(mem, r, PageOf(v));
            t.Some? && t.value.pml4e % 8 == 7 && t.value.pdpte % 8 == 7 && t.value.pde % 8 == 7 && t.value.pte % 8 == 7
  {
    hide FramesOk, UserMaps, PageOf, Walk, Link;
    var p := PageOf(v);
    PageOfUser(v, v);
    WalkIsLookup(mem, tab, owner, kernel, r, p);
    assert Slot(r, Pt(p.a, p.b, p.c)) in tab;
    Ancestors(mem, tab, owner, kernel, r, p);
    hide TreesOk;
  }

  /** A walk depends on the pointers to its tables. */
  lemma {:induction false} PathAfter(mem: Memory, mem': Memory, tab: Tables, root: nat, p: VPage, e: nat)
    requires Pointers(mem, tab, mem', tab, 0) && Slot(root, Pt(p.a, p.b, p.c)) in tab && Present(e)
    requires Slot(root, Pdpt(p.a)) in tab && Slot(root, Pd(p.a, p.b)) in tab
    ensures PathIf(mem, tab, root, p, e) == Some(Path(mem', tab, root, p, e)) && Path(mem', tab, root, p, e).pte == e
  {
    hide Link;
  }

  lemma {:induction false} ChangedWalk(mem: Memory, mem': Memory, tab: Tables, kernel: nat, root: nat, p: VPage, t: Option<Steps>)
    requires OnlyChanges(mem, mem', tab, kernel, root, p, t)
    requires Slot(root, Pml4) in tab && Tracked(Slot(root, Pml4), p.a, kernel) && p.b < 512 && p.c < 512 && p.d < 512
    ensures Walk(mem', root, p) == t
  {
  }

  lemma {:induction false} SameLookupsRefl(mem: Memory, tab: Tables)
    ensures SameLookups(mem, tab, mem, tab)
  {
  }

  lemma {:induction false} SameLookupsTrans(mem0: Memory, mem1: Memory, mem2: Memory, tab: Tables)
    requires SameLookups(mem0, tab, mem1, tab) && SameLookups(mem1, tab, mem2, tab)
    ensures SameLookups(mem0, tab, mem2, tab)
  {
    hide Lookup;
  }

  lemma {:induction false} SameLookupsTrans2(mem0: Memory, tab0: Tables, mem1: Memory, tab1: Tables, mem2: Memory, tab2: Tables)
    requires SameLookups(mem0, tab0, mem1, tab1) && SameLookups(mem1, tab1, mem2, tab2)
    ensures SameLookups(mem0, tab0, mem2, tab2)
  {
    hide Lookup;
  }

  lemma {:induction false} KernelTop(mem: Memory, head: nat, count: nat, free: seq<nat>, owner: Owners, tab: Tables, user: UserMap, kernel: nat)
    requires Core(mem, head, count, free, owner, tab, user, kernel) && Slot(kernel, Pml4) in tab
    ensures kernel in mem && |mem[kernel]| == 512
  {
    assert SlotOk(mem, tab, owner, kernel, Slot(kernel, Pml4));
  }

  lemma {:induction false} SharedHalf(mem: Memory, r: nat, kernel: nat)
    requires r in mem && |mem[r]| == 512 && kernel in mem && |mem[kernel]| == 512
    requires forall j :: 256 <= j < 512 ==> mem[r][j] == mem[kernel][j]
    ensures SharesKernel(mem, r, kernel)
  {
    forall p: VPage | 256 <= p.a < 512 ensures Walk(mem, r, p) == Walk(mem, kernel, p) {
      assert Entry(mem, r, p.a) == Entry(mem, kernel, p.a);
    }
  }

  /** A frame that was free is no top table. */
  lemma {:induction false} NotARoot(mem: Memory, head: nat, count: nat, free: seq<nat>, owner: Owners, tab: Tables, user: UserMap, kernel: nat, r: nat)
    requires Core(mem, head, count, free, owner, tab, user, kernel) && r in owner && owner[r] == Free
    ensures Slot(r, Pml4) !in tab
  {
    assert Slot(r, Pml4) in tab ==> SlotOk(mem, tab, owner, kernel, Slot(r, Pml4));
  }

  lemma {:induction false} LedgerRelabelled(owner: Owners, user: UserMap, lay: Layout, tables: map<nat, S.Table>, reg: seq<S.Region>, f: nat, o: Owner)
    requires Ledger(owner, user, lay, tables, reg) && f in owner && owner[f] == Free && (o.Table? || o.Heap?)
    ensures Ledger(owner[f := o], user, lay, tables, reg)
  {
    hide Ledger;
    LedgerOthers(owner, owner[f := o], user, lay, tables, reg);
  }

  lemma {:induction false} NoPagesOf(owner: Owners, user: UserMap, lay: Layout, tables: map<nat, S.Table>, reg: seq<S.Region>, r: nat)
    requires Ledger(owner, user, lay, tables, reg) && r !in lay
    ensures forall v :: (r, v) !in user
  {
    forall v ensures (r, v) !in user {
      assert (r, v) in user ==> (r, v).0 in lay;
    }
  }

  lemma {:induction false} CoreSameWalks(mem: Memory, head: nat, count: nat, free: seq<nat>, owner: Owners, tab: Tables, user: UserMap,
                      mem': Memory, head': nat, count': nat, free': seq<nat>, owner': Owners, tab': Tables, user': UserMap, kernel: nat)
    requires Core(mem, head, count, free, owner, tab, user, kernel) && Core(mem', head', count', free', owner', tab', user', kernel)
    requires SameLookups(mem, tab, mem', tab') && forall r :: Slot(r, Pml4) in tab ==> Slot(r, Pml4) in tab'
    ensures SameWalks(mem, mem', tab, kernel)
  {
    hide FramesOk, TreesOk, UserMaps, Lookup, SameLookups;
    WalksFromLookups(mem, tab, owner, mem', tab', owner', kernel);
  }

  lemma {:induction false} WalksAround(mem0: Memory, mem1: Memory, mem2: Memory, mem3: Memory, tab: Tables, tab': Tables, kernel: nat,
                    r: nat, p: VPage, t: Option<Steps>)
    requires SameWalks(mem0, mem1, tab, kernel) && OnlyChanges(mem1, mem2, tab, kernel, r, p, t) && SameWalks(mem2, mem3, tab', kernel)
    requires forall r :: Slot(r, Pml4) in tab ==> Slot(r, Pml4) in tab'
    ensures OnlyChanges(mem0, mem3, tab, kernel, r, p, t)
  {
    hide Walk;
  }

  lemma {:induction false} NotUser(v: nat)
    requires PageOf(v).a >= 256
    ensures !UserAddr(v)
  {
    if UserAddr(v) { PageOfUser(v, v); }
  }

  lemma {:induction false} FreeList(mem: Memory, head: nat, count: nat, free: seq<nat>, owner: Owners, tab: Tables, user: UserMap, kernel: nat)
    requires Core(mem, head, count, free, owner, tab, user, kernel)
    ensures Distinct(free) && forall f :: f in owner ==> (owner[f] == Free <==> f in free)
  {
    hide TreesOk, UserMaps, Distinct;
  }

  lemma {:induction false} NothingGone(owner: Owners, user: UserMap, r: nat)
    ensures PagesGone(owner, owner, r) && OthersKept(user, user, r)
  {
  }

  lemma {:induction false} GoneStep(owner0: Owners, owner1: Owners, owner2: Owners, r: nat, lo: nat, hi: nat)
    requires PagesGone(owner0, owner1, r) && Gave(owner1, owner2, r, lo, hi)
    ensures PagesGone(owner0, owner2, r)
  {
  }

  lemma {:induction false} LostStep(user0: UserMap, user1: UserMap, user2: UserMap, r: nat, lo: nat, hi: nat)
    requires OthersKept(user0, user1, r) && Lost(user1, user2, r, lo, hi)
    ensures OthersKept(user0, user2, r)
  {
  }

  lemma {:induction false} LedgerTorn(st: Snapshot, mem: Memory, owner: Owners, user: UserMap, lay: Layout, tables: map<nat, S.Table>, reg: seq<S.Region>)
    requires Ledger(st.owner, user, lay, tables, reg) && Torn(st, mem, owner, {})
    ensures Ledger(owner, user, lay, tables, reg)
    ensures owner.Keys == st.owner.Keys && forall f :: f in owner ==> owner[f] == Label(st.owner[f], st.root, {})
  {
    hide Ledger;
    LedgerOthers(st.owner, owner, user, lay, tables, reg);
  }

  /** The three stages of `process_exit` together. */
  lemma {:induction false} ExitedAll(owner0: Owners, owner1: Owners, owner2: Owners, owner3: Owners, tables: map<nat, S.Table>, r: nat)
    requires r in tables && LetGo(owner0, owner1, tables, r, |tables[r].slots|) && PagesGone(owner1, owner2, r)
    requires owner3.Keys == owner2.Keys && forall f :: f in owner3 ==> owner3[f] == Label(owner2[f], r, {})
    requires forall f :: f in owner2 && owner2[f].Page? ==> owner2[f].root != r
    ensures Exited(owner0, owner3, tables, r)
  {
    hide HoldsFirst, HeldElsewhere;
  }

  lemma {:induction false} OthersTwice(user0: UserMap, user1: UserMap, user2: UserMap, r: nat)
    requires OthersKept(user0, user1, r) && OthersKept(user1, user2, r)
    ensures OthersKept(user0, user2, r)
  {
  }

  lemma {:induction false} DropUpdated<V>(m: map<nat, V>, r: nat, v: V)
    ensures m[r := v] - {r} == m - {r}
  {
  }

  // ---- init_pmm

  lemma {:induction false} OpenedNone(owner: Owners, es: seq<MapEntry>)
    ensures Opened(owner, owner, es, 0, 0)
  {
  }

  lemma {:induction false} PassedNext(es: seq<MapEntry>, i: nat, f: nat)
    requires i < |es|
    ensures Passed(es, i + 1, 0, f) <==> Passed(es, i, 0, f) || Usable(es[i], f)
  {
  }

  lemma {:induction false} OpenedSkip(owner0: Owners, owner: Owners, es: seq<MapEntry>, i: nat)
    requires Opened(owner0, owner, es, i, 0) && i < |es| && !es[i].usable
    ensures Opened(owner0, owner, es, i + 1, 0)
  {
    forall f | f in owner0 ensures Passed(es, i + 1, 0, f) <==> Passed(es, i, 0, f) { PassedNext(es, i, f); }
    hide Passed;
  }

  /** Below the first aligned address of an entry there is nothing of it. */
  lemma {:induction false} OpenedStart(owner0: Owners, owner: Owners, es: seq<MapEntry>, i: nat, addr: nat)
    requires Opened(owner0, owner, es, i, 0) && i < |es| && addr == (es[i].base + 0xFFF) / PAGE_SIZE * PAGE_SIZE
    ensures Opened(owner0, owner, es, i, addr) && addr % PAGE_SIZE == 0 && es[i].base <= addr
  {
    forall f | f in owner0 ensures Passed(es, i, addr, f) <==> Passed(es, i, 0, f) {
      RoundUp(es[i].base, f);
    }
    hide Passed;
  }

  lemma {:induction false} RoundUp(base: nat, f: nat)
    ensures var a := (base + 0xFFF) / PAGE_SIZE * PAGE_SIZE; a % PAGE_SIZE == 0 && base <= a && (f % PAGE_SIZE == 0 && base <= f ==> a <= f)
  {
  }

  lemma {:induction false} OpenedStep(owner0: Owners, owner: Owners, es: seq<MapEntry>, i: nat, addr: nat)
    requires Opened(owner0, owner, es, i, addr) && BootMap(es, owner0) && i < |es| && es[i].usable
    requires addr % PAGE_SIZE == 0 && es[i].base <= addr && addr + PAGE_SIZE <= es[i].base + es[i].length
    ensures addr != 0 ==> addr in owner && owner[addr] == Heap
    ensures Opened(owner0, if addr == 0 then owner else owner[addr := Free], es, i, addr + PAGE_SIZE)
  {
    assert addr != 0 ==> Usable(es[i], addr);
    assert !Passed(es, i, addr, addr);
    forall f ensures Passed(es, i, addr + PAGE_SIZE, f) <==> Passed(es, i, addr, f) || (f == addr && f != 0) {
      if Usable(es[i], f) { NextPage(addr, f); }
    }
    hide Passed, Usable;
  }

  lemma {:induction false} OpenedEnd(owner0: Owners, owner: Owners, es: seq<MapEntry>, i: nat, addr: nat)
    requires Opened(owner0, owner, es, i, addr) && i < |es| && addr + PAGE_SIZE > es[i].base + es[i].length
    ensures Opened(owner0, owner, es, i + 1, 0)
  {
    forall f | f in owner0 ensures Passed(es, i + 1, 0, f) <==> Passed(es, i, addr, f) { PassedNext(es, i, f); }
    hide Passed;
  }

  lemma {:induction false} OpenedAll(owner0: Owners, owner: Owners, es: seq<MapEntry>)
    requires Opened(owner0, owner, es, |es|, 0)
    ensures owner.Keys == owner0.Keys
    ensures forall f :: f in owner ==> owner[f] == if exists j :: 0 <= j < |es| && Usable(es[j], f) then Free else owner0[f]
  {
    hide Usable;
    forall f ensures Passed(es, |es|, 0, f) <==> exists j :: 0 <= j < |es| && Usable(es[j], f) {}
    hide Passed;
  }

  lemma {:induction false} LedgerOpened(owner0: Owners, owner: Owners, user: UserMap, lay: Layout, tables: map<nat, S.Table>, reg: seq<S.Region>, es: seq<MapEntry>)
    requires Ledger(owner0, user, lay, tables, reg) && Opened(owner0, owner, es, |es|, 0) && BootMap(es, owner0)
    ensures Ledger(owner, user, lay, tables, reg)
  {
    hide Ledger, Usable;
    LedgerOthers(owner0, owner, user, lay, tables, reg);
  }

  // ---- what the invariant says about a frame

  ghost predicate TableFrame(tab: Tables, f: nat) {
    exists s :: s in tab && tab[s] == f
  }

  /** The frame backs a page of a region. */
  ghost predicate RegionFrame(user: UserMap, lay: Layout, f: nat) {
    exists r, v: nat :: Backs(user, lay, r, v, f)
  }

  /** The page `v` of `r` lies in a region and is mapped to the frame. */
  ghost predicate Backs(user: UserMap, lay: Layout, r: nat, v: nat, f: nat) {
    (r, v) in user && user[(r, v)] == f && r in lay && InRegions(lay[r].regions, v)
  }

  ghost predicate SharedRegionFrame(reg: seq<S.Region>, f: nat) {
    exists i :: 0 <= i < |reg| && reg[i].phys == f
  }

  /** Every frame is in exactly one of: the free list, a table tree, a process region, a shared region, the kernel's own. */
  lemma {:induction false} OneHolder(mem: Memory, head: nat, count: nat, free: seq<nat>, owner: Owners, tab: Tables, user: UserMap, kernel: nat,
                  lay: Layout, tables: map<nat, S.Table>, reg: seq<S.Region>, f: nat)
    requires Core(mem, head, count, free, owner, tab, user, kernel) && Ledger(owner, user, lay, tables, reg) && f in mem
    ensures f in owner
    ensures f in free <==> owner[f].Free?
    ensures TableFrame(tab, f) <==> owner[f].Table?
    ensures RegionFrame(user, lay, f) <==> owner[f].Page?
    ensures SharedRegionFrame(reg, f) <==> owner[f].Shared?
  {
    hide InRegions, UserMaps, SharedHeld, HandlesMapped;
    FreeList(mem, head, count, free, owner, tab, user, kernel);
    hide FramesOk;
    HolderTables(mem, tab, owner, kernel, f);
    hide TreesOk;
    HolderPages(owner, user, lay, tables, reg, f);
    HolderShared(owner, reg, f);
    hide TableFrame, RegionFrame, SharedRegionFrame;
    assert FramesOk(mem, head, count, free, owner);
    SameFrames(mem, head, count, free, owner);
  }

  lemma {:induction false} SameFrames(mem: Memory, head: nat, count: nat, free: seq<nat>, owner: Owners)
    requires FramesOk(mem, head, count, free, owner)
    ensures mem.Keys == owner.Keys
  {
  }

  lemma {:induction false} HolderTables(mem: Memory, tab: Tables, owner: Owners, kernel: nat, f: nat)
    requires TreesOk(mem, tab, owner, kernel)
    ensures TableFrame(tab, f) <==> f in owner && owner[f].Table?
  {
    if TableFrame(tab, f) {
      var s :| s in tab && tab[s] == f;
      assert SlotOk(mem, tab, owner, kernel, s);
    }
  }

  lemma {:induction false} HolderPages(owner: Owners, user: UserMap, lay: Layout, tables: map<nat, S.Table>, reg: seq<S.Region>, f: nat)
    requires Ledger(owner, user, lay, tables, reg)
    ensures RegionFrame(user, lay, f) <==> f in owner && owner[f].Page?
  {
    if RegionFrame(user, lay, f) {
      var r, v: nat :| Backs(user, lay, r, v, f);
      assert UserAddr((r, v).1);
    }
    if f in owner && owner[f].Page? {
      assert Backs(user, lay, owner[f].root, owner[f].virt, f);
    }
  }

  lemma {:induction false} HolderShared(owner: Owners, reg: seq<S.Region>, f: nat)
    requires RegionFrames(owner, reg)
    ensures SharedRegionFrame(reg, f) <==> f in owner && owner[f].Shared?
  {
  }

  /** A frame backs at most one page of all regions, and a table at most one place in the trees. */
  lemma {:induction false} OnePlace(mem: Memory, head: nat, count: nat, free: seq<nat>, owner: Owners, tab: Tables, user: UserMap, kernel: nat,
                 lay: Layout, tables: map<nat, S.Table>, reg: seq<S.Region>)
    requires Core(mem, head, count, free, owner, tab, user, kernel) && Ledger(owner, user, lay, tables, reg)
    ensures forall s, t :: s in tab && t in tab && tab[s] == tab[t] ==> s == t
    ensures forall r, v: nat, q, w: nat, f :: Backs(user, lay, r, v, f) && Backs(user, lay, q, w, f) ==> r == q && v == w
  {
    hide FramesOk, InRegions;
    forall s, t | s in tab && t in tab && tab[s] == tab[t] ensures s == t {
      assert SlotOk(mem, tab, owner, kernel, s) && SlotOk(mem, tab, owner, kernel, t);
    }
    hide TreesOk;
    forall r, v: nat, q, w: nat, f | Backs(user, lay, r, v, f) && Backs(user, lay, q, w, f) ensures r == q && v == w {
      assert UserAddr((r, v).1) && UserAddr((q, w).1);
    }
  }
}
