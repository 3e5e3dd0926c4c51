/** Freeing the tables of an address space while walking them: the tables still to be freed are intact. */
module Teardown {
  import opened Options
  import opened Paging
  import opened FrameLedger
  import opened AddressSpaces

  /** Memory, trees and owners when `vmm_free_pml4_user` starts on the space `root`. */
  datatype Snapshot = Snapshot(mem: Memory, tab: Tables, owner: Owners, root: nat, kernel: nat)

  ghost predicate Start(st: Snapshot) {
    TreesOk(st.mem, st.tab, st.owner, st.kernel) && Slot(st.root, Pml4) in st.tab && st.root != st.kernel
  }

  predicate Under(n: Node, top: Node) {
    match top
    case Pml4 => true
    case Pdpt(a) => !n.Pml4? && n.a == a
    case Pd(a, b) => (n.Pd? || n.Pt?) && n.a == a && n.b == b
    case Pt(_, _, _) => n == top
  }

  /** The entry of `top` that leads to `n`. */
  function IndexUnder(n: Node, top: Node): nat
    requires Under(n, top) && n != top
  {
    match top case Pml4 => n.a case Pdpt(_) => n.b case Pd(_, _) => n.c
  }

  /** The tables at `s` and below. */
  ghost predicate Below(st: Snapshot, s: Slot, t: Slot) {
    t in st.tab && t.root == s.root && Under(t.node, s.node)
  }

  /** The tables below the first `i` entries of `s`. */
  ghost predicate BelowFirst(st: Snapshot, s: Slot, i: nat, t: Slot) {
    Below(st, s, t) && t != s && IndexUnder(t.node, s.node) < i
  }

  function Label(o: Owner, root: nat, left: set<Slot>): Owner {
    if o.Table? && o.slot.root == root then (if o.slot in left then Heap else Free) else o
  }

  ghost predicate SameFrame(mem: Memory, mem': Memory, f: nat) {
    f in mem && f in mem' && mem[f] == mem'[f]
  }

  /** The tables in `left` are held and intact, the other tables of the space are free, nothing else changed hands. */
  ghost predicate Torn(st: Snapshot, mem: Memory, owner: Owners, left: set<Slot>) {
    && owner.Keys == st.owner.Keys
    && (forall f :: f in owner ==> owner[f] == Label(st.owner[f], st.root, left))
    && (forall s :: s in left ==> s in st.tab && s.root == st.root && SameFrame(st.mem, mem, st.tab[s]))
  }

  lemma {:induction false} LeftHeld(st: Snapshot, mem: Memory, owner: Owners, left: set<Slot>, s: Slot)
    requires Start(st) && Torn(st, mem, owner, left) && s in left
    ensures s in st.tab && st.tab[s] in owner && owner[st.tab[s]] == Heap
    ensures SameFrame(st.mem, mem, st.tab[s]) && |mem[st.tab[s]]| == 512
  {
    assert SlotOk(st.mem, st.tab, st.owner, st.kernel, s);
  }

  /** Freeing one of the tables left. */
  lemma {:induction false} TornStep(st: Snapshot, mem: Memory, owner: Owners, left: set<Slot>, s: Slot, next: nat)
    requires Start(st) && Torn(st, mem, owner, left) && s in left
    requires st.tab[s] in mem && |mem[st.tab[s]]| == 512
    ensures Torn(st, SetWord(mem, st.tab[s], 0, next), owner[st.tab[s] := Free], left - {s})
  {
    var f := st.tab[s];
    assert SlotOk(st.mem, st.tab, st.owner, st.kernel, s);
    forall t | t in left && t != s ensures st.tab[t] != f {
      TablesDistinct(st.mem, st.tab, st.owner, st.kernel, s, t);
    }
    TornLabels(st, owner, left, s);
    hide Start, TreesOk, Label;
  }

  lemma {:induction false} TornLabels(st: Snapshot, owner: Owners, left: set<Slot>, s: Slot)
    requires Start(st) && owner.Keys == st.owner.Keys && s in left && s in st.tab && s.root == st.root
    requires forall f :: f in owner ==> owner[f] == Label(st.owner[f], st.root, left)
    ensures st.tab[s] in owner
    ensures forall f :: f in owner ==> owner[st.tab[s] := Free][f] == Label(st.owner[f], st.root, left - {s})
  {
    assert SlotOk(st.mem, st.tab, st.owner, st.kernel, s);
    forall g | g in owner ensures st.owner[g] == Table(s) <==> g == st.tab[s] {
      assert st.owner[g] == Table(s) ==> st.tab[s] == g;
    }
    hide Start, TreesOk;
  }

  /** Without `c`, nothing is below it. */
  lemma {:induction false} NoneBelow(st: Snapshot, c: Slot, t: Slot)
    requires Start(st) && c !in st.tab
    ensures !Below(st, c, t)
  {
    if Below(st, c, t) {
      if t.node.Pt? { OrphanFree(st.mem, st.tab, st.owner, st.kernel, t); }
      if t.node.Pt? || t.node.Pd? {
        OrphanFree(st.mem, st.tab, st.owner, st.kernel, Slot(t.root, Pd(t.node.a, t.node.b)));
      }
      if !t.node.Pml4? { OrphanFree(st.mem, st.tab, st.owner, st.kernel, Slot(t.root, Pdpt(t.node.a))); }
      assert false;
    }
  }

  /** What lies below one entry more. */
  lemma {:induction false} BelowNext(st: Snapshot, s: Slot, i: nat, t: Slot)
    requires Start(st) && !s.node.Pt?
    ensures BelowFirst(st, s, i + 1, t) <==> BelowFirst(st, s, i, t) || Below(st, Slot(s.root, Child(s.node, i)), t)
  {
  }

  /** After its last entry, everything below the table has been passed. */
  lemma {:induction false} BelowAll(st: Snapshot, s: Slot, t: Slot)
    requires Start(st) && s.root == st.root && !s.node.Pt?
    ensures BelowFirst(st, s, if s.node.Pml4? then 256 else 512, t) <==> Below(st, s, t) && t != s
  {
    if Below(st, s, t) { assert SlotOk(st.mem, st.tab, st.owner, st.kernel, t); }
  }

  lemma {:induction false} BelowSelf(st: Snapshot, s: Slot, t: Slot)
    requires s.node.Pt?
    ensures Below(st, s, t) <==> t == s && s in st.tab
  {
  }

  /** The tables of a space that are still to be freed. */
  ghost function TablesOf(tab: Tables, root: nat): set<Slot> {
    set s | s in tab && s.root == root
  }

  ghost function Without(tab: Tables, root: nat): Tables {
    map s | s in tab && s.root != root :: tab[s]
  }

  ghost function HeldFor(owner: Owners, root: nat): Owners {
    map f | f in owner :: Label(owner[f], root, if owner[f].Table? then {owner[f].slot} else {})
  }

  /** Once its tables are only held, the other spaces are on their own. */
  lemma {:induction false} Detached(mem: Memory, head: nat, count: nat, free: seq<nat>, owner: Owners, tab: Tables, user: UserMap, kernel: nat, root: nat)
    requires Core(mem, head, count, free, owner, tab, user, kernel) && Slot(root, Pml4) in tab && root != kernel
    ensures Core(mem, head, count, free, HeldFor(owner, root), Without(tab, root), user, kernel)
    ensures Torn(Snapshot(mem, tab, owner, root, kernel), mem, HeldFor(owner, root), TablesOf(tab, root))
    ensures Start(Snapshot(mem, tab, owner, root, kernel))
  {
    DetachedTrees(mem, tab, owner, kernel, root);
    DetachedFrames(mem, head, count, free, owner, root);
    DetachedTorn(mem, tab, owner, kernel, root);
    hide FramesOk, TreesOk, Torn, HeldFor;
    forall r, v: nat | Slot(r, Pml4) in Without(tab, root) && UserAddr(v)
      ensures Target(Lookup(mem, Without(tab, root), r, PageOf(v))) == MappedAt(user, r, v)
    {
      assert Target(Lookup(mem, tab, r, PageOf(v))) == MappedAt(user, r, v);
    }
  }

  lemma {:induction false} DetachedTorn(mem: Memory, tab: Tables, owner: Owners, kernel: nat, root: nat)
    requires TreesOk(mem, tab, owner, kernel)
    ensures Torn(Snapshot(mem, tab, owner, root, kernel), mem, HeldFor(owner, root), TablesOf(tab, root))
  {
    forall s | s in TablesOf(tab, root) ensures tab[s] in mem { assert SlotOk(mem, tab, owner, kernel, s); }
  }

  lemma {:induction false} DetachedFrames(mem: Memory, head: nat, count: nat, free: seq<nat>, owner: Owners, root: nat)
    requires FramesOk(mem, head, count, free, owner)
    ensures FramesOk(mem, head, count, free, HeldFor(owner, root))
  {
    var owner' := HeldFor(owner, root);
    assert owner'.Keys == owner.Keys;
    assert forall f :: f in owner ==> (owner'[f] == Free <==> owner[f] == Free);
  }

  lemma {:induction false} DetachedTrees(mem: Memory, tab: Tables, owner: Owners, kernel: nat, root: nat)
    requires TreesOk(mem, tab, owner, kernel)
    ensures TreesOk(mem, Without(tab, root), HeldFor(owner, root), kernel)
  {
    var tab', owner' := Without(tab, root), HeldFor(owner, root);
    forall s | s in tab' ensures SlotOk(mem, tab', owner', kernel, s) {
      assert SlotOk(mem, tab, owner, kernel, s);
      forall i | Tracked(s, i, kernel) ensures EntryOk(mem, tab', s, i) { assert EntryOk(mem, tab, s, i); }
    }
  }

  lemma {:induction false} BelowNone(st: Snapshot, s: Slot)
    ensures forall t :: !BelowFirst(st, s, 0, t)
  {
  }

  /** While the first `i` entries are passed, the table is intact, and entry `i` leads to a table that is still there. */
  lemma {:induction false} EntryLeft(st: Snapshot, mem: Memory, owner: Owners, left: set<Slot>, now: set<Slot>, s: Slot, i: nat)
    requires Start(st) && Torn(st, mem, owner, now) && s in left && s.root == st.root && Tracked(s, i, st.kernel)
    requires forall t :: Below(st, s, t) ==> t in left
    requires forall t :: t in now <==> t in left && !BelowFirst(st, s, i, t)
    ensures s in st.tab && SameFrame(st.mem, mem, st.tab[s]) && |mem[st.tab[s]]| == 512
    ensures var c, e := Slot(s.root, Child(s.node, i)), mem[st.tab[s]][i];
            && (Present(e) <==> c in st.tab)
            && (c in st.tab ==> c in now && AddrOf(e) == st.tab[c])
            && (forall t :: Below(st, c, t) ==> t in now)
  {
    var c := Slot(s.root, Child(s.node, i));
    assert !BelowFirst(st, s, i, s);
    LeftHeld(st, mem, owner, now, s);
    assert SlotOk(st.mem, st.tab, st.owner, st.kernel, s) && EntryOk(st.mem, st.tab, s, i);
    forall t | Below(st, c, t) ensures t in now {
      BelowNext(st, s, i, t);
    }
    assert c in st.tab ==> Below(st, c, c);
  }

  lemma {:induction false} BelowItself(st: Snapshot, mem: Memory, owner: Owners, left: set<Slot>, s: Slot)
    requires Start(st) && Torn(st, mem, owner, left) && s in left
    ensures Below(st, s, s) && !BelowFirst(st, s, 512, s)
  {
  }

  /** The top table leads to all of them. */
  lemma {:induction false} TopLeft(st: Snapshot, left: set<Slot>)
    requires Start(st) && left == TablesOf(st.tab, st.root)
    ensures var s := Slot(st.root, Pml4);
            && s in left && s in st.tab && st.tab[s] == st.root && forall t :: t in left <==> Below(st, s, t)
  {
    assert SlotOk(st.mem, st.tab, st.owner, st.kernel, Slot(st.root, Pml4));
  }
}
