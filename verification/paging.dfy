/** Four-level page tables of src/kernel/kern_vmm.c in flat physical memory. Tables are frames of 512 words;
    an entry holds the address of the next frame and its flag bits. */
module Paging {
  import opened Options

  const PAGE_SIZE: nat := 0x1000
  const ADDR_LIMIT: nat := 0x10_0000_0000_0000
  const USER_END: nat := 0x8000_0000_0000
  const PRESENT: nat := 1
  const RW: nat := 2
  const USER: nat := 4

  /** Physical memory: 512 words at each frame address. */
  type Memory = map<nat, seq<nat>>

  /** Storing to word `i` of the frame at `f`. */
  function SetWord(mem: Memory, f: nat, i: nat, e: nat): Memory
    requires f in mem && i < |mem[f]|
  {
    var words: seq<nat> := mem[f][i := e];
    mem[f := words]
  }

  predicate FrameAddr(a: nat) {
    0 < a < ADDR_LIMIT && a % PAGE_SIZE == 0
  }

  predicate Present(e: nat) {
    e % 2 == 1
  }

  /** `e & PTE_ADDR_MASK`: bits 12 to 51. */
  function AddrOf(e: nat): nat {
    e / PAGE_SIZE % 0x100_0000_0000 * PAGE_SIZE
  }

  /** `new_table | PAGE_PRESENT | PAGE_RW | (flags & PAGE_USER)` for a page-aligned address. */
  function TableEntry(addr: nat, flags: nat): nat {
    addr + PRESENT + RW + (if flags / USER % 2 == 1 then USER else 0)
  }

  /** `phys | flags | PAGE_PRESENT` for a page-aligned address and flag bits below the page size. */
  function LeafEntry(phys: nat, flags: nat): nat {
    phys + (if flags % 2 == 1 then flags else flags + PRESENT)
  }

  /** The bits of a pointer to a table: present and writable, and open to the user as `flags` says. */
  lemma {:induction false} TableBits(addr: nat, flags: nat)
    requires addr % PAGE_SIZE == 0
    ensures var e := TableEntry(addr, flags); e / PAGE_SIZE * PAGE_SIZE == addr && e % PAGE_SIZE == 3 + flags / 4 % 2 * 4
  {
    LowBits(addr, TableEntry(addr, flags) - addr);
  }

  /** The bits of a last-level entry: present, and bits 1 to 11 of `flags`. */
  lemma {:induction false} LeafBits(phys: nat, flags: nat)
    requires phys % PAGE_SIZE == 0 && flags < PAGE_SIZE
    ensures var e := LeafEntry(phys, flags);
            e / PAGE_SIZE * PAGE_SIZE == phys && e % 2 == 1 && e % PAGE_SIZE / 2 == flags / 2
  {
    LowBits(phys, LeafEntry(phys, flags) - phys);
  }

  lemma {:induction false} LowBits(addr: nat, low: nat)
    requires addr % PAGE_SIZE == 0 && low < PAGE_SIZE
    ensures (addr + low) / PAGE_SIZE * PAGE_SIZE == addr && (addr + low) % PAGE_SIZE == low && (addr + low) % 2 == low % 2
  {
    var q := addr / PAGE_SIZE;
    assert addr == q * PAGE_SIZE;
    Parts(q, low);
  }

  lemma {:induction false} Parts(q: nat, low: nat)
    requires low < PAGE_SIZE
    ensures (q * PAGE_SIZE + low) / PAGE_SIZE == q && (q * PAGE_SIZE + low) % PAGE_SIZE == low
    ensures (q * PAGE_SIZE + low) % 2 == low % 2
  {
    assert q * PAGE_SIZE + low == 2 * (q * 2048) + low;
  }

  lemma {:induction false} EntryBits(addr: nat, flags: nat)
    requires addr < ADDR_LIMIT && addr % PAGE_SIZE == 0 && flags < PAGE_SIZE
    ensures Present(TableEntry(addr, flags)) && AddrOf(TableEntry(addr, flags)) == addr
    ensures Present(LeafEntry(addr, flags)) && AddrOf(LeafEntry(addr, flags)) == addr
  {
    hide AddrOf;
    FrameBits(addr, TableEntry(addr, flags) - addr);
    FrameBits(addr, LeafEntry(addr, flags) - addr);
  }

  /** The low bits of an entry do not disturb its address, nor the address its low bits. */
  lemma {:induction false} FrameBits(addr: nat, low: nat)
    requires addr < ADDR_LIMIT && addr % PAGE_SIZE == 0 && low < PAGE_SIZE
    ensures AddrOf(addr + low) == addr && (addr + low) % 2 == low % 2
  {
    var q := addr / PAGE_SIZE;
    assert addr == q * PAGE_SIZE && q < 0x100_0000_0000;
    assert (addr + low) / PAGE_SIZE == q && q % 0x100_0000_0000 == q;
    assert addr + low == 2 * (q * 2048) + low;
  }

  /** The four table indices of a virtual address. */
  datatype VPage = VPage(a: nat, b: nat, c: nat, d: nat)

  function PageOf(v: nat): (p: VPage)
    ensures p.a < 512 && p.b < 512 && p.c < 512 && p.d < 512
  {
    VPage(v / 0x80_0000_0000 % 512, v / 0x4000_0000 % 512, v / 0x20_0000 % 512, v / 0x1000 % 512)
  }

  /** Different user pages have different indices, and user pages use the lower half of the top table. */
  lemma {:induction false} PageOfUser(v: nat, w: nat)
    requires v < USER_END && w < USER_END && v % PAGE_SIZE == 0 && w % PAGE_SIZE == 0
    ensures PageOf(v).a < 256
    ensures PageOf(v) == PageOf(w) ==> v == w
  {
    Digits(v);
    Digits(w);
  }

  /** A page-aligned 47-bit address in base 512. */
  lemma {:induction false} Digits(v: nat)
    requires v < USER_END && v % PAGE_SIZE == 0
    ensures var p := PageOf(v);
            p.a < 256 && v == (((p.a * 512 + p.b) * 512 + p.c) * 512 + p.d) * PAGE_SIZE
  {
    var d := v / 0x1000;
    var c := v / 0x20_0000;
    var b := v / 0x4000_0000;
    var a := v / 0x80_0000_0000;
    assert c == d / 512;
    assert b == c / 512;
    assert a == b / 512;
    assert a < 256;
  }

  // ------------------------------------------------------------------- the walk

  /** Entry `i` of the table at `table`, when it is present. */
  function Entry(mem: Memory, table: nat, i: nat): Option<nat> {
    if table in mem && i < |mem[table]| && Present(mem[table][i]) then Some(mem[table][i]) else None
  }

  function Step(mem: Memory, table: nat, i: nat): Option<nat> {
    match Entry(mem, table, i) case None => None case Some(e) => Some(AddrOf(e))
  }

  /** The four words that a translation goes through, the top table's first. */
  datatype Steps = Steps(pml4e: nat, pdpte: nat, pde: nat, pte: nat)

  /** The hardware's walk: section 4.5 of the Intel SDM, volume 3A. */
  function Walk(mem: Memory, root: nat, p: VPage): Option<Steps> {
    match Entry(mem, root, p.a)
    case None => None
    case Some(pml4e) =>
      match Entry(mem, AddrOf(pml4e), p.b)
      case None => None
      case Some(pdpte) =>
        match Entry(mem, AddrOf(pdpte), p.c)
        case None => None
        case Some(pde) =>
          match Entry(mem, AddrOf(pde), p.d) case None => None case Some(pte) => Some(Steps(pml4e, pdpte, pde, pte))
  }

  /** The frame a walk ends at. */
  function Target(t: Option<Steps>): Option<nat> {
    match t case None => None case Some(s) => Some(AddrOf(s.pte))
  }

  // ------------------------------------------------------------ the table trees

  datatype Node = Pml4 | Pdpt(a: nat) | Pd(a: nat, b: nat) | Pt(a: nat, b: nat, c: nat)

  /** A table in the tree of an address space. */
  datatype Slot = Slot(root: nat, node: Node)

  /** Who holds a frame. */
  datatype Owner = Free | Table(slot: Slot) | Page(root: nat, virt: nat) | Shared(id: nat) | Heap

  function Child(n: Node, i: nat): Node
    requires !n.Pt?
  {
    match n case Pml4 => Pdpt(i) case Pdpt(a) => Pd(a, i) case Pd(a, b) => Pt(a, b, i)
  }

  function Parent(n: Node): Node
    requires !n.Pml4?
  {
    match n case Pdpt(a) => Pml4 case Pd(a, b) => Pdpt(a) case Pt(a, b, c) => Pd(a, b)
  }

  /** A process owns the tables below the lower half of its top table; the kernel space owns all of its own. */
  predicate Tracked(s: Slot, i: nat, kernel: nat) {
    i < 512 && !s.node.Pt? && (s.node.Pml4? && s.root != kernel ==> i < 256)
  }

  predicate NodeOk(s: Slot, kernel: nat) {
    match s.node
    case Pml4 => true
    case Pdpt(a) => Tracked(Slot(s.root, Pml4), a, kernel)
    case Pd(a, b) => Tracked(Slot(s.root, Pml4), a, kernel) && b < 512
    case Pt(a, b, c) => Tracked(Slot(s.root, Pml4), a, kernel) && b < 512 && c < 512
  }

  /** Entry `i` of the table `s` is present exactly when the tree has that child, and then points to it. */
  ghost predicate EntryOk(mem: Memory, tab: map<Slot, nat>, s: Slot, i: nat)
    requires s in tab && !s.node.Pt? && i < 512
  {
    var c := Slot(s.root, Child(s.node, i));
    Step(mem, tab[s], i) == if c in tab then Some(tab[c]) else None
  }

  ghost predicate SlotOk(mem: Memory, tab: map<Slot, nat>, owner: map<nat, Owner>, kernel: nat, s: Slot)
    requires s in tab
  {
    && tab[s] in mem && |mem[tab[s]]| == 512
    && tab[s] in owner && owner[tab[s]] == Table(s)
    && NodeOk(s, kernel)
    && (s.node.Pml4? ==> tab[s] == s.root)
    && (!s.node.Pml4? ==> Slot(s.root, Parent(s.node)) in tab)
    && forall i :: Tracked(s, i, kernel) ==> EntryOk(mem, tab, s, i)
  }

  /** The trees of all address spaces, in memory and disjoint from each other. */
  ghost predicate TreesOk(mem: Memory, tab: map<Slot, nat>, owner: map<nat, Owner>, kernel: nat) {
    && (forall s :: s in tab ==> SlotOk(mem, tab, owner, kernel, s))
    && (forall f :: f in owner && owner[f].Table? ==> owner[f].slot in tab && tab[owner[f].slot] == f)
  }

  /** The word in entry `i` of the table `s`. */
  ghost function WordAt(mem: Memory, tab: map<Slot, nat>, s: Slot, i: nat): nat {
    if s in tab && tab[s] in mem && i < |mem[tab[s]]| then mem[tab[s]][i] else 0
  }

  /** The word that points to a table. */
  ghost function Link(mem: Memory, tab: map<Slot, nat>, c: Slot): nat
    requires !c.node.Pml4?
  {
    WordAt(mem, tab, Slot(c.root, Parent(c.node)), match c.node case Pdpt(a) => a case Pd(_, b) => b case Pt(_, _, i) => i)
  }

  /** The walk to a page whose last word is `e`. */
  ghost function Path(mem: Memory, tab: map<Slot, nat>, root: nat, p: VPage, e: nat): Steps {
    Steps(Link(mem, tab, Slot(root, Pdpt(p.a))), Link(mem, tab, Slot(root, Pd(p.a, p.b))), Link(mem, tab, Slot(root, Pt(p.a, p.b, p.c))), e)
  }

  ghost function PathIf(mem: Memory, tab: map<Slot, nat>, root: nat, p: VPage, e: nat): Option<Steps> {
    if Present(e) then Some(Path(mem, tab, root, p, e)) else None
  }

  /** What the tree says about a page. */
  ghost function Lookup(mem: Memory, tab: map<Slot, nat>, root: nat, p: VPage): Option<Steps> {
    PathIf(mem, tab, root, p, WordAt(mem, tab, Slot(root, Pt(p.a, p.b, p.c)), p.d))
  }

  /** Pointers to the tables of `tab` are as they were; the new ones are present, writable, and open to the user as
      bit 2 of `flags` says. */
  ghost predicate Pointers(mem: Memory, tab: map<Slot, nat>, mem': Memory, tab': map<Slot, nat>, flags: nat) {
    && (forall c :: c in tab ==> c in tab' && tab'[c] == tab[c])
    && forall c :: c in tab' && !c.node.Pml4? ==>
      if c in tab then Link(mem', tab', c) == Link(mem, tab, c)
      else Link(mem', tab', c) / PAGE_SIZE * PAGE_SIZE == tab'[c] && Link(mem', tab', c) % PAGE_SIZE == 3 + flags / 4 % 2 * 4
  }

  /** The walk through memory is the lookup in the tree. */
  lemma {:induction false} WalkIsLookup(mem: Memory, tab: map<Slot, nat>, owner: map<nat, Owner>, kernel: nat, root: nat, p: VPage)
    requires TreesOk(mem, tab, owner, kernel) && Slot(root, Pml4) in tab
    requires Tracked(Slot(root, Pml4), p.a, kernel) && p.b < 512 && p.c < 512
    ensures Walk(mem, root, p) == Lookup(mem, tab, root, p)
  {
    var s0, s1, s2, s3 := Slot(root, Pml4), Slot(root, Pdpt(p.a)), Slot(root, Pd(p.a, p.b)), Slot(root, Pt(p.a, p.b, p.c));
    assert SlotOk(mem, tab, owner, kernel, s0) && EntryOk(mem, tab, s0, p.a);
    if s1 in tab {
      assert SlotOk(mem, tab, owner, kernel, s1) && Tracked(s1, p.b, kernel) && EntryOk(mem, tab, s1, p.b);
    }
    if s2 in tab {
      assert SlotOk(mem, tab, owner, kernel, s2) && Tracked(s2, p.c, kernel) && EntryOk(mem, tab, s2, p.c);
    }
    if s3 in tab {
      assert SlotOk(mem, tab, owner, kernel, s3);
    }
  }

  // ----------------------------------------------------------- what changes a tree

  /** Memory that agrees on every table frame holds the same trees. */
  lemma {:induction false} TreesFrame(mem: Memory, mem': Memory, tab: map<Slot, nat>, owner: map<nat, Owner>, owner': map<nat, Owner>, kernel: nat)
    requires TreesOk(mem, tab, owner, kernel)
    requires forall f :: f in owner && owner[f].Table? ==>
               f in mem && f in mem' && mem'[f] == mem[f] && f in owner' && owner'[f] == owner[f]
    requires forall f :: f in owner' && owner'[f].Table? ==> f in owner && owner[f] == owner'[f]
    ensures TreesOk(mem', tab, owner', kernel)
    ensures Pointers(mem, tab, mem', tab, 0) && forall r, p :: Lookup(mem', tab, r, p) == Lookup(mem, tab, r, p)
  {
    forall s | s in tab ensures SlotOk(mem', tab, owner', kernel, s) && tab[s] in mem && mem'[tab[s]] == mem[tab[s]] {
      SlotFrame(mem, mem', tab, owner, owner', kernel, s);
    }
    forall t, j: nat ensures WordAt(mem', tab, t, j) == WordAt(mem, tab, t, j) {}
    hide WordAt, TreesOk;
  }

  lemma {:induction false} SlotFrame(mem: Memory, mem': Memory, tab: map<Slot, nat>, owner: map<nat, Owner>, owner': map<nat, Owner>, kernel: nat, s: Slot)
    requires s in tab && SlotOk(mem, tab, owner, kernel, s)
    requires tab[s] in mem' && mem'[tab[s]] == mem[tab[s]] && tab[s] in owner' && owner'[tab[s]] == owner[tab[s]]
    ensures SlotOk(mem', tab, owner', kernel, s)
  {
    forall i | Tracked(s, i, kernel) ensures EntryOk(mem', tab, s, i) { assert EntryOk(mem, tab, s, i); }
  }

  predicate Covers(s: Slot, i: nat, root: nat, p: VPage) {
    s == Slot(root, Pt(p.a, p.b, p.c)) && p.d == i
  }

  /** Writing entry `i` of the table `s` changes that word and no other word of any table. */
  lemma {:induction false} WordsAfter(mem: Memory, tab: map<Slot, nat>, owner: map<nat, Owner>, kernel: nat, s: Slot, i: nat, e: nat)
    requires TreesOk(mem, tab, owner, kernel) && s in tab && i < 512
    ensures tab[s] in mem && |mem[tab[s]]| == 512
    ensures var mem' := SetWord(mem, tab[s], i, e);
            forall t, j: nat :: WordAt(mem', tab, t, j) == if t == s && j == i then e else WordAt(mem, tab, t, j)
  {
    assert SlotOk(mem, tab, owner, kernel, s);
    var mem' := SetWord(mem, tab[s], i, e);
    forall t, j: nat ensures WordAt(mem', tab, t, j) == if t == s && j == i then e else WordAt(mem, tab, t, j) {
      if t in tab { assert SlotOk(mem, tab, owner, kernel, t); }
    }
  }

  /** A table in the tree has its ancestors in the tree, below tracked entries. */
  lemma {:induction false} Ancestors(mem: Memory, tab: map<Slot, nat>, owner: map<nat, Owner>, kernel: nat, r: nat, p: VPage)
    requires TreesOk(mem, tab, owner, kernel) && Slot(r, Pt(p.a, p.b, p.c)) in tab
    ensures Slot(r, Pml4) in tab && Slot(r, Pdpt(p.a)) in tab && Slot(r, Pd(p.a, p.b)) in tab
    ensures Tracked(Slot(r, Pml4), p.a, kernel) && p.b < 512 && p.c < 512
  {
    assert SlotOk(mem, tab, owner, kernel, Slot(r, Pt(p.a, p.b, p.c)));
    assert SlotOk(mem, tab, owner, kernel, Slot(r, Pd(p.a, p.b)));
    assert SlotOk(mem, tab, owner, kernel, Slot(r, Pdpt(p.a)));
  }

  /** Writing an entry of a last-level table changes the translation of that page only. */
  lemma {:induction false} LeafWrite(mem: Memory, tab: map<Slot, nat>, owner: map<nat, Owner>, kernel: nat, s: Slot, i: nat, e: nat)
    requires TreesOk(mem, tab, owner, kernel) && s in tab && s.node.Pt? && i < 512
    ensures tab[s] in mem && i < |mem[tab[s]]|
    ensures var mem' := SetWord(mem, tab[s], i, e);
            && TreesOk(mem', tab, owner, kernel)
            && Pointers(mem, tab, mem', tab, 0)
            && forall r, p :: Lookup(mem', tab, r, p) ==
                 if Covers(s, i, r, p) then PathIf(mem, tab, r, p, e) else Lookup(mem, tab, r, p)
  {
    assert SlotOk(mem, tab, owner, kernel, s);
    var mem' := SetWord(mem, tab[s], i, e);
    forall t | t in tab ensures SlotOk(mem', tab, owner, kernel, t) {
      assert SlotOk(mem, tab, owner, kernel, t);
      if t != s { SlotFrame(mem, mem', tab, owner, owner, kernel, t); }
    }
    WordsAfter(mem, tab, owner, kernel, s, i, e);
    hide WordAt, TreesOk, SlotOk;
    forall r, p ensures Lookup(mem', tab, r, p) ==
      if Covers(s, i, r, p) then PathIf(mem, tab, r, p, e) else Lookup(mem, tab, r, p)
    {
    }
  }

  /** Writing an entry the tree does not track, in the kernel half of a process's top table, changes nothing. */
  lemma {:induction false} UntrackedWrite(mem: Memory, tab: map<Slot, nat>, owner: map<nat, Owner>, kernel: nat, s: Slot, i: nat, e: nat)
    requires TreesOk(mem, tab, owner, kernel) && s in tab && s.node.Pml4? && s.root != kernel && 256 <= i < 512
    ensures tab[s] in mem && i < |mem[tab[s]]|
    ensures var mem' := SetWord(mem, tab[s], i, e);
            && TreesOk(mem', tab, owner, kernel)
            && Pointers(mem, tab, mem', tab, 0) && forall r, p :: Lookup(mem', tab, r, p) == Lookup(mem, tab, r, p)
  {
    assert SlotOk(mem, tab, owner, kernel, s);
    var mem' := SetWord(mem, tab[s], i, e);
    forall t | t in tab ensures SlotOk(mem', tab, owner, kernel, t) {
      assert SlotOk(mem, tab, owner, kernel, t);
      if t != s {
        SlotFrame(mem, mem', tab, owner, owner, kernel, t);
      } else {
        forall j | Tracked(s, j, kernel) ensures EntryOk(mem', tab, s, j) { assert EntryOk(mem, tab, s, j); }
      }
    }
    UntrackedLinks(mem, tab, owner, kernel, s, i, e);
  }

  lemma {:induction false} UntrackedLinks(mem: Memory, tab: map<Slot, nat>, owner: map<nat, Owner>, kernel: nat, s: Slot, i: nat, e: nat)
    requires TreesOk(mem, tab, owner, kernel) && s in tab && s.node.Pml4? && s.root != kernel && 256 <= i < 512
    ensures tab[s] in mem && i < |mem[tab[s]]|
    ensures var mem' := SetWord(mem, tab[s], i, e);
            Pointers(mem, tab, mem', tab, 0) && forall r, p :: Lookup(mem', tab, r, p) == Lookup(mem, tab, r, p)
  {
    WordsAfter(mem, tab, owner, kernel, s, i, e);
    var mem' := SetWord(mem, tab[s], i, e);
    forall c | c in tab && !c.node.Pml4? ensures Link(mem', tab, c) == Link(mem, tab, c) {
      assert SlotOk(mem, tab, owner, kernel, c);
    }
    forall r, p ensures Lookup(mem', tab, r, p) == Lookup(mem, tab, r, p) {
      if Slot(r, Pt(p.a, p.b, p.c)) in tab { Ancestors(mem, tab, owner, kernel, r, p); }
    }
  }

  function Zeros(): (z: seq<nat>)
    ensures |z| == 512 && forall i :: 0 <= i < 512 ==> z[i] == 0
  {
    seq(512, _ => 0)
  }

  /** Attaching a zeroed frame as a new table maps nothing and changes no translation. */
  lemma {:induction false} NewTable(mem: Memory, tab: map<Slot, nat>, owner: map<nat, Owner>, kernel: nat, s: Slot, i: nat, f: nat, flags: nat)
    requires TreesOk(mem, tab, owner, kernel) && s in tab && Tracked(s, i, kernel)
    requires FrameAddr(f) && flags < PAGE_SIZE && f in owner && !owner[f].Table? && mem.Keys == owner.Keys
    requires Slot(s.root, Child(s.node, i)) !in tab
    ensures tab[s] in mem && i < |mem[tab[s]]| && tab[s] != f
    ensures var c := Slot(s.root, Child(s.node, i));
            var mem' := SetWord(mem[f := Zeros()], tab[s], i, TableEntry(f, flags));
            && TreesOk(mem', tab[c := f], owner[f := Table(c)], kernel)
            && Pointers(mem, tab, mem', tab[c := f], flags) && forall r, p :: Lookup(mem', tab[c := f], r, p) == Lookup(mem, tab, r, p)
  {
    var c := Slot(s.root, Child(s.node, i));
    assert SlotOk(mem, tab, owner, kernel, s);
    var mem' := SetWord(mem[f := Zeros()], tab[s], i, TableEntry(f, flags));
    var tab', owner' := tab[c := f], owner[f := Table(c)];
    NewTableSlots(mem, mem', tab, owner, kernel, s, i, f, flags);
    NewTableLinks(mem, mem', tab, owner, kernel, s, i, f, flags);
  }

  lemma {:induction false} NewTableLinks(mem: Memory, mem': Memory, tab: map<Slot, nat>, owner: map<nat, Owner>, kernel: nat, s: Slot, i: nat, f: nat, flags: nat)
    requires TreesOk(mem, tab, owner, kernel) && s in tab && Tracked(s, i, kernel)
    requires FrameAddr(f) && flags < PAGE_SIZE && f in owner && !owner[f].Table? && mem.Keys == owner.Keys
    requires tab[s] in mem && i < |mem[tab[s]]| && tab[s] != f
    requires Slot(s.root, Child(s.node, i)) !in tab
    requires mem' == SetWord(mem[f := Zeros()], tab[s], i, TableEntry(f, flags))
    ensures var tab' := tab[Slot(s.root, Child(s.node, i)) := f];
            Pointers(mem, tab, mem', tab', flags) && forall r, p :: Lookup(mem', tab', r, p) == Lookup(mem, tab, r, p)
  {
    var c, e := Slot(s.root, Child(s.node, i)), TableEntry(f, flags);
    var tab' := tab[c := f];
    TableBits(f, flags);
    hide TableEntry;
    forall t, j: nat | t in tab ensures WordAt(mem', tab', t, j) == if t == s && j == i then e else WordAt(mem, tab, t, j) {
      assert SlotOk(mem, tab, owner, kernel, t) && SlotOk(mem, tab, owner, kernel, s);
    }
    forall j: nat ensures WordAt(mem', tab', c, j) == 0 {}
    forall d | d in tab && !d.node.Pml4? ensures Link(mem', tab', d) == Link(mem, tab, d) {
      assert SlotOk(mem, tab, owner, kernel, d);
      hide WordAt, TreesOk;
    }
    forall r, p ensures Lookup(mem', tab', r, p) == Lookup(mem, tab, r, p) {
      if Slot(r, Pt(p.a, p.b, p.c)) in tab { Ancestors(mem, tab, owner, kernel, r, p); }
      hide WordAt, TreesOk;
    }
  }

  lemma {:induction false} NewTableSlots(mem: Memory, mem': Memory, tab: map<Slot, nat>, owner: map<nat, Owner>, kernel: nat, s: Slot, i: nat, f: nat, flags: nat)
    requires TreesOk(mem, tab, owner, kernel) && s in tab && Tracked(s, i, kernel)
    requires FrameAddr(f) && flags < PAGE_SIZE && f in owner && !owner[f].Table? && mem.Keys == owner.Keys
    requires tab[s] in mem && i < |mem[tab[s]]| && tab[s] != f
    requires Slot(s.root, Child(s.node, i)) !in tab
    requires mem' == SetWord(mem[f := Zeros()], tab[s], i, TableEntry(f, flags))
    ensures var c := Slot(s.root, Child(s.node, i)); TreesOk(mem', tab[c := f], owner[f := Table(c)], kernel)
  {
    var c := Slot(s.root, Child(s.node, i));
    var tab', owner' := tab[c := f], owner[f := Table(c)];
    EntryBits(f, flags);
    hide AddrOf, TableEntry;
    assert SlotOk(mem, tab, owner, kernel, s);
    forall t | t in tab' ensures SlotOk(mem', tab', owner', kernel, t) {
      if t == c {
        NewTableEmpty(mem', tab', owner', kernel, tab, owner, mem, c, f);
      } else {
        assert SlotOk(mem, tab, owner, kernel, t);
        assert tab[t] != f;
        forall j | Tracked(t, j, kernel) ensures EntryOk(mem', tab', t, j) {
          assert EntryOk(mem, tab, t, j);
        }
      }
    }
  }

  lemma {:induction false} NewTableEmpty(mem': Memory, tab': map<Slot, nat>, owner': map<nat, Owner>, kernel: nat,
                      tab: map<Slot, nat>, owner: map<nat, Owner>, mem: Memory, c: Slot, f: nat)
    requires TreesOk(mem, tab, owner, kernel) && c !in tab && !c.node.Pml4? && Slot(c.root, Parent(c.node)) in tab
    requires NodeOk(c, kernel) && tab' == tab[c := f] && f in mem' && mem'[f] == Zeros() && f in owner' && owner'[f] == Table(c)
    ensures SlotOk(mem', tab', owner', kernel, c)
  {
    forall j | Tracked(c, j, kernel) ensures EntryOk(mem', tab', c, j) {
      var g := Slot(c.root, Child(c.node, j));
      OrphanFree(mem, tab, owner, kernel, g);
    }
  }

  /** A table's parent is in the tree. */
  lemma {:induction false} OrphanFree(mem: Memory, tab: map<Slot, nat>, owner: map<nat, Owner>, kernel: nat, g: Slot)
    requires TreesOk(mem, tab, owner, kernel) && !g.node.Pml4?
    ensures g in tab ==> Slot(g.root, Parent(g.node)) in tab
  {
  }
}
