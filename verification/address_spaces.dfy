/** The free list, the page-table trees and the user mappings together: what each step of the frame allocator
    and of the page-table code of src/kernel/kern_vmm.c keeps. */
module AddressSpaces {
  import opened Options
  import opened Paging
  import opened FrameLedger

  type Tables = map<Slot, nat>

  function MappedAt(user: UserMap, r: nat, v: nat): Option<nat> {
    if (r, v) in user then Some(user[(r, v)]) else None
  }

  /** In every address space, the tables translate each user page as recorded. */
  ghost predicate UserMaps(mem: Memory, tab: Tables, user: UserMap) {
    forall r, v: nat :: Slot(r, Pml4) in tab && UserAddr(v) ==> Target(Lookup(mem, tab, r, PageOf(v))) == MappedAt(user, r, v)
  }

  ghost predicate Core(mem: Memory, head: nat, count: nat, free: seq<nat>, owner: Owners, tab: Tables, user: UserMap, kernel: nat) {
    FramesOk(mem, head, count, free, owner) && TreesOk(mem, tab, owner, kernel) && UserMaps(mem, tab, user)
  }

  /** From `mem` to `mem'`, the walk changes for the page `p` of `root`, to `t`, and for no other page of any space. */
  ghost predicate OnlyChanges(mem: Memory, mem': Memory, tab: Tables, kernel: nat, root: nat, p: VPage, t: Option<Steps>) {
    forall r, q: VPage :: Slot(r, Pml4) in tab && Tracked(Slot(r, Pml4), q.a, kernel) && q.b < 512 && q.c < 512 && q.d < 512 ==>
      Walk(mem', r, q) == if r == root && q == p then t else Walk(mem, r, q)
  }

  /** No page of any space changes its translation. */
  ghost predicate SameWalks(mem: Memory, mem': Memory, tab: Tables, kernel: nat) {
    forall r, q: VPage :: Slot(r, Pml4) in tab && Tracked(Slot(r, Pml4), q.a, kernel) && q.b < 512 && q.c < 512 && q.d < 512 ==>
      Walk(mem', r, q) == Walk(mem, r, q)
  }

  ghost predicate SameLookups(mem: Memory, tab: Tables, mem': Memory, tab': Tables) {
    forall r, p :: Lookup(mem', tab', r, p) == Lookup(mem, tab, r, p)
  }

  /** Tables of the trees never share a frame. */
  lemma {:induction false} TablesDistinct(mem: Memory, tab: Tables, owner: Owners, kernel: nat, s: Slot, t: Slot)
    requires TreesOk(mem, tab, owner, kernel) && s in tab && t in tab && s != t
    ensures tab[s] != tab[t]
  {
    assert SlotOk(mem, tab, owner, kernel, s) && SlotOk(mem, tab, owner, kernel, t);
  }

  lemma {:induction false} WalksFromLookups(mem: Memory, tab: Tables, owner: Owners, mem': Memory, tab': Tables, owner': Owners, kernel: nat)
    requires TreesOk(mem, tab, owner, kernel) && TreesOk(mem', tab', owner', kernel) && SameLookups(mem, tab, mem', tab')
    requires forall r :: Slot(r, Pml4) in tab ==> Slot(r, Pml4) in tab'
    ensures SameWalks(mem, mem', tab, kernel)
  {
    hide TreesOk, Walk, Lookup;
    forall r, q: VPage | Slot(r, Pml4) in tab && Tracked(Slot(r, Pml4), q.a, kernel) && q.b < 512 && q.c < 512 && q.d < 512
      ensures Walk(mem', r, q) == Walk(mem, r, q)
    {
      WalkIsLookup(mem, tab, owner, kernel, r, q);
      WalkIsLookup(mem', tab', owner', kernel, r, q);
    }
  }

  // ------------------------------------------------------------- frames come and go

  /** A frame taken for anything but a table. */
  lemma {:induction false} CoreAlloc(mem: Memory, head: nat, count: nat, free: seq<nat>, owner: Owners, tab: Tables, user: UserMap, kernel: nat, o: Owner)
    requires Core(mem, head, count, free, owner, tab, user, kernel) && free != [] && !o.Free? && !o.Table?
    ensures head == free[0] && FrameAddr(head) && head in mem && |mem[head]| == 512 && head in owner && owner[head] == Free
    ensures Core(mem[head := Zeros()], mem[head][0], count - 1, free[1..], owner[head := o], tab, user, kernel)
    ensures SameLookups(mem, tab, mem[head := Zeros()], tab) && Pointers(mem, tab, mem[head := Zeros()], tab, 0)
  {
    AllocFrames(mem, head, count, free, owner, o);
    hide FramesOk;
    TablesInMemory(mem, tab, owner, kernel);
    TreesFrame(mem, mem[head := Zeros()], tab, owner, owner[head := o], kernel);
    hide TreesOk, Lookup;
  }

  lemma {:induction false} TablesInMemory(mem: Memory, tab: Tables, owner: Owners, kernel: nat)
    requires TreesOk(mem, tab, owner, kernel)
    ensures forall f :: f in owner && owner[f].Table? ==> f in mem && |mem[f]| == 512
  {
    forall f | f in owner && owner[f].Table? ensures f in mem && |mem[f]| == 512 {
      assert SlotOk(mem, tab, owner, kernel, owner[f].slot);
    }
  }

  /** A frame given back; it may still be mapped. */
  lemma {:induction false} CoreRelease(mem: Memory, head: nat, count: nat, free: seq<nat>, owner: Owners, tab: Tables, user: UserMap, kernel: nat, f: nat)
    requires Core(mem, head, count, free, owner, tab, user, kernel) && f in owner && !owner[f].Free? && !owner[f].Table?
    ensures f in mem && |mem[f]| == 512 && f != 0
    ensures Core(SetWord(mem, f, 0, head), f, count + 1, [f] + free, owner[f := Free], tab, user, kernel)
    ensures SameLookups(mem, tab, SetWord(mem, f, 0, head), tab)
  {
    ReleaseFrames(mem, head, count, free, owner, f);
    hide FramesOk;
    TablesInMemory(mem, tab, owner, kernel);
    TreesFrame(mem, SetWord(mem, f, 0, head), tab, owner, owner[f := Free], kernel);
    hide TreesOk, Lookup;
  }

  /** Writing to a frame that is not free, and changing who holds it, leaves the free list alone. */
  lemma {:induction false} FramesWrite(mem: Memory, head: nat, count: nat, free: seq<nat>, owner: Owners, f: nat, i: nat, e: nat)
    requires FramesOk(mem, head, count, free, owner) && f in owner && owner[f] != Free && i < 512
    ensures f in mem && |mem[f]| == 512
    ensures FramesOk(SetWord(mem, f, i, e), head, count, free, owner)
  {
    forall k | 0 <= k < |free| ensures Linked(SetWord(mem, f, i, e), free, k) {
      assert Linked(mem, free, k) && free[k] in free;
    }
  }

  lemma {:induction false} FramesRelabel(mem: Memory, head: nat, count: nat, free: seq<nat>, owner: Owners, f: nat, o: Owner)
    requires FramesOk(mem, head, count, free, owner) && f in owner && owner[f] != Free && o != Free
    ensures FramesOk(mem, head, count, free, owner[f := o])
  {
  }

  // ------------------------------------------------------------- table entries

  /** A held, zeroed frame becomes entry `i`'s table. */
  lemma {:induction false} CoreNewTable(mem: Memory, head: nat, count: nat, free: seq<nat>, owner: Owners, tab: Tables, user: UserMap, kernel: nat,
                     s: Slot, i: nat, f: nat, flags: nat)
    requires Core(mem, head, count, free, owner, tab, user, kernel)
    requires s in tab && Tracked(s, i, kernel) && Slot(s.root, Child(s.node, i)) !in tab
    requires f in owner && owner[f] == Heap && f in mem && mem[f] == Zeros() && flags < PAGE_SIZE
    ensures tab[s] in mem && |mem[tab[s]]| == 512
    ensures var c, mem' := Slot(s.root, Child(s.node, i)), SetWord(mem, tab[s], i, TableEntry(f, flags));
            && Core(mem', head, count, free, owner[f := Table(c)], tab[c := f], user, kernel)
            && SameLookups(mem, tab, mem', tab[c := f]) && Pointers(mem, tab, mem', tab[c := f], flags)
  {
    var c := Slot(s.root, Child(s.node, i));
    assert SlotOk(mem, tab, owner, kernel, s);
    assert mem[f := Zeros()] == mem;
    NewTable(mem, tab, owner, kernel, s, i, f, flags);
    FramesWrite(mem, head, count, free, owner, tab[s], i, TableEntry(f, flags));
    FramesRelabel(SetWord(mem, tab[s], i, TableEntry(f, flags)), head, count, free, owner, f, Table(c));
    hide FramesOk, TreesOk, Lookup, SlotOk, Pointers;
  }

  /** What storing `e` in entry `i` of the last-level table of user page `v` does to the user map. */
  function Remapped(user: UserMap, r: nat, v: nat, e: nat): UserMap {
    if Present(e) then user[(r, v) := AddrOf(e)] else user - {(r, v)}
  }

  lemma {:induction false} CoreLeaf(mem: Memory, head: nat, count: nat, free: seq<nat>, owner: Owners, tab: Tables, user: UserMap, kernel: nat,
                 r: nat, p: VPage, e: nat)
    requires Core(mem, head, count, free, owner, tab, user, kernel)
    requires p.d < 512 && Slot(r, Pt(p.a, p.b, p.c)) in tab && Tracked(Slot(r, Pml4), p.a, kernel)
    ensures var s := Slot(r, Pt(p.a, p.b, p.c)); tab[s] in mem && |mem[tab[s]]| == 512
    ensures var s := Slot(r, Pt(p.a, p.b, p.c));
            var mem' := SetWord(mem, tab[s], p.d, e);
            && FramesOk(mem', head, count, free, owner) && TreesOk(mem', tab, owner, kernel) && Pointers(mem, tab, mem', tab, 0)
            && forall q, w :: Lookup(mem', tab, q, w) == if q == r && w == p then PathIf(mem, tab, q, w, e) else Lookup(mem, tab, q, w)
  {
    var s := Slot(r, Pt(p.a, p.b, p.c));
    assert SlotOk(mem, tab, owner, kernel, s);
    LeafWrite(mem, tab, owner, kernel, s, p.d, e);
    FramesWrite(mem, head, count, free, owner, tab[s], p.d, e);
    hide FramesOk, TreesOk, Lookup, SlotOk, Pointers;
  }

  /** A user page's entry changes the user map at that page only. */
  lemma {:induction false} LeafUserMaps(mem: Memory, mem': Memory, tab: Tables, user: UserMap, r: nat, v: nat, e: nat)
    requires UserMaps(mem, tab, user) && UserAddr(v)
    requires forall q, w :: Lookup(mem', tab, q, w) == if q == r && w == PageOf(v) then PathIf(mem, tab, q, w, e) else Lookup(mem, tab, q, w)
    ensures UserMaps(mem', tab, Remapped(user, r, v, e))
  {
    hide Lookup, PageOf;
    forall q, w: nat | Slot(q, Pml4) in tab && UserAddr(w)
      ensures Target(Lookup(mem', tab, q, PageOf(w))) == MappedAt(Remapped(user, r, v, e), q, w)
    {
      PageOfUser(v, w);
    }
  }

  /** A page of the kernel half is no user page. */
  lemma {:induction false} LeafKernelMaps(mem: Memory, mem': Memory, tab: Tables, user: UserMap, r: nat, p: VPage, e: nat)
    requires UserMaps(mem, tab, user) && p.a >= 256
    requires forall q, w :: Lookup(mem', tab, q, w) == if q == r && w == p then PathIf(mem, tab, q, w, e) else Lookup(mem, tab, q, w)
    ensures UserMaps(mem', tab, user)
  {
    hide Lookup, PageOf;
    forall q, w: nat | Slot(q, Pml4) in tab && UserAddr(w) ensures Target(Lookup(mem', tab, q, PageOf(w))) == MappedAt(user, q, w) {
      PageOfUser(w, w);
    }
  }

  lemma {:induction false} LeafWalks(mem: Memory, mem': Memory, tab: Tables, tab': Tables, owner: Owners, owner': Owners, kernel: nat,
                  r: nat, p: VPage, t: Option<Steps>)
    requires TreesOk(mem, tab, owner, kernel) && TreesOk(mem', tab', owner', kernel)
    requires forall q :: Slot(q, Pml4) in tab ==> Slot(q, Pml4) in tab'
    requires forall q, w :: Lookup(mem', tab', q, w) == if q == r && w == p then t else Lookup(mem, tab, q, w)
    ensures OnlyChanges(mem, mem', tab, kernel, r, p, t)
  {
    hide TreesOk, Walk, Lookup;
    forall q, w: VPage | Slot(q, Pml4) in tab && Tracked(Slot(q, Pml4), w.a, kernel) && w.b < 512 && w.c < 512 && w.d < 512
      ensures Walk(mem', q, w) == if q == r && w == p then t else Walk(mem, q, w)
    {
      WalkIsLookup(mem, tab, owner, kernel, q, w);
      WalkIsLookup(mem', tab', owner', kernel, q, w);
    }
  }

  /** An entry in the kernel half of a process's top table. */
  lemma {:induction false} CoreUntracked(mem: Memory, head: nat, count: nat, free: seq<nat>, owner: Owners, tab: Tables, user: UserMap, kernel: nat,
                      r: nat, i: nat, e: nat)
    requires Core(mem, head, count, free, owner, tab, user, kernel) && Slot(r, Pml4) in tab && r != kernel && 256 <= i < 512
    ensures tab[Slot(r, Pml4)] == r && r in mem && |mem[r]| == 512
    ensures Core(SetWord(mem, r, i, e), head, count, free, owner, tab, user, kernel)
    ensures SameLookups(mem, tab, SetWord(mem, r, i, e), tab) && Pointers(mem, tab, SetWord(mem, r, i, e), tab, 0)
  {
    var s := Slot(r, Pml4);
    assert SlotOk(mem, tab, owner, kernel, s);
    UntrackedWrite(mem, tab, owner, kernel, s, i, e);
    FramesWrite(mem, head, count, free, owner, r, i, e);
    hide FramesOk, TreesOk, Lookup, SlotOk, Pointers;
  }

  /** A held, zeroed frame becomes the top table of a new address space. */
  lemma {:induction false} CoreNewRoot(mem: Memory, head: nat, count: nat, free: seq<nat>, owner: Owners, tab: Tables, user: UserMap, kernel: nat, f: nat)
    requires Core(mem, head, count, free, owner, tab, user, kernel)
    requires f in owner && owner[f] == Heap && f in mem && mem[f] == Zeros()
    requires forall v :: (f, v) !in user
    ensures Slot(f, Pml4) !in tab
    ensures Core(mem, head, count, free, owner[f := Table(Slot(f, Pml4))], tab[Slot(f, Pml4) := f], user, kernel)
    ensures SameLookups(mem, tab, mem, tab[Slot(f, Pml4) := f])
  {
    var c := Slot(f, Pml4);
    assert c in tab ==> SlotOk(mem, tab, owner, kernel, c);
    FramesRelabel(mem, head, count, free, owner, f, Table(c));
    NewRootTrees(mem, tab, owner, kernel, f);
    var tab' := tab[c := f];
    forall r, v: nat | Slot(r, Pml4) in tab' && UserAddr(v) ensures Target(Lookup(mem, tab', r, PageOf(v))) == MappedAt(user, r, v) {
      if r == f { NoSpace(mem, tab, owner, kernel, f, PageOf(v)); }
    }
  }

  /** Without a top table there are no tables. */
  lemma {:induction false} NoSpace(mem: Memory, tab: Tables, owner: Owners, kernel: nat, r: nat, p: VPage)
    requires TreesOk(mem, tab, owner, kernel) && Slot(r, Pml4) !in tab
    ensures Slot(r, Pdpt(p.a)) !in tab && Slot(r, Pd(p.a, p.b)) !in tab && Slot(r, Pt(p.a, p.b, p.c)) !in tab
  {
    OrphanFree(mem, tab, owner, kernel, Slot(r, Pdpt(p.a)));
    OrphanFree(mem, tab, owner, kernel, Slot(r, Pd(p.a, p.b)));
    OrphanFree(mem, tab, owner, kernel, Slot(r, Pt(p.a, p.b, p.c)));
  }

  lemma {:induction false} NewRootTrees(mem: Memory, tab: Tables, owner: Owners, kernel: nat, f: nat)
    requires TreesOk(mem, tab, owner, kernel) && Slot(f, Pml4) !in tab
    requires f in owner && owner[f] == Heap && f in mem && mem[f] == Zeros()
    ensures TreesOk(mem, tab[Slot(f, Pml4) := f], owner[f := Table(Slot(f, Pml4))], kernel)
  {
    var c := Slot(f, Pml4);
    var tab', owner' := tab[c := f], owner[f := Table(c)];
    forall s | s in tab' ensures SlotOk(mem, tab', owner', kernel, s) {
      if s == c {
        forall i | Tracked(c, i, kernel) ensures EntryOk(mem, tab', c, i) {
          OrphanFree(mem, tab, owner, kernel, Slot(f, Pdpt(i)));
        }
      } else {
        assert SlotOk(mem, tab, owner, kernel, s);
        forall i | Tracked(s, i, kernel) ensures EntryOk(mem, tab', s, i) { assert EntryOk(mem, tab, s, i); }
      }
    }
  }
}
