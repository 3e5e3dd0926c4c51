/** Shared memory of src/kernel/kern_ipc.c: a global registry of reference-counted regions and a growable
    handle table for each process. */
module SharedMemory {
  import opened Options

  const FIRST_CAPACITY: nat := 4

  datatype Region = Region(id: nat, phys: nat, pages: nat, flags: nat, refs: nat)

  datatype Entry = Entry(active: bool, id: nat, virt: nat, pages: nat)

  /** `shmem_table` and `shmem_count`; the capacity is the length of the table. */
  datatype Table = Table(slots: seq<Entry>, count: nat)

  const NO_ENTRY := Entry(false, 0, 0, 0)

  predicate Names(e: Entry, id: nat) {
    e.active && e.id == id
  }

  /** All active handles naming `id`, as pairs of process and slot. */
  ghost function Handles(tables: map<nat, Table>, id: nat): set<(nat, nat)> {
    set p, h | p in tables && 0 <= h < |tables[p].slots| && Names(tables[p].slots[h], id) :: (p, h)
  }

  ghost function ActiveCount(s: seq<Entry>): (n: nat)
    ensures n <= |s|
  {
    if s == [] then 0 else (if s[0].active then 1 else 0) + ActiveCount(s[1..])
  }

  /** The position of a region in the registry, or its length. */
  ghost function Where(reg: seq<Region>, id: nat): (k: nat)
    ensures k <= |reg| && (k < |reg| ==> reg[k].id == id)
    ensures forall j :: 0 <= j < k ==> reg[j].id != id
  {
    if reg == [] || reg[0].id == id then 0 else 1 + Where(reg[1..], id)
  }

  ghost predicate Registered(reg: seq<Region>, id: nat) {
    Where(reg, id) < |reg|
  }

  // ---------------------------------------------------------------- invariant

  ghost predicate Ids(reg: seq<Region>, nextId: nat) {
    && (forall i :: 0 <= i < |reg| ==> 0 < reg[i].id < nextId)
    && (forall i, j :: 0 <= i < j < |reg| ==> reg[i].id != reg[j].id)
  }

  /** A region's reference count is the number of active handles that name it. */
  ghost predicate Counted(reg: seq<Region>, tables: map<nat, Table>) {
    forall i :: 0 <= i < |reg| ==> reg[i].refs == |Handles(tables, reg[i].id)|
  }

  ghost predicate OneEach(s: seq<Entry>) {
    forall g, h :: 0 <= g < h < |s| && s[g].active && s[h].active ==> s[g].id != s[h].id
  }

  /** Active handles resolve to a registered region of the recorded size. */
  ghost predicate Resolved(reg: seq<Region>, s: seq<Entry>) {
    forall h :: 0 <= h < |s| && s[h].active ==> Registered(reg, s[h].id) && s[h].pages == PagesOf(reg, s[h].id)
  }

  ghost function PagesOf(reg: seq<Region>, id: nat): nat {
    var k := Where(reg, id); if k < |reg| then reg[k].pages else 0
  }

  ghost predicate TableOk(reg: seq<Region>, t: Table) {
    OneEach(t.slots) && Resolved(reg, t.slots) && t.count == ActiveCount(t.slots)
  }

  ghost predicate Tables(reg: seq<Region>, tables: map<nat, Table>) {
    forall p :: p in tables ==> TableOk(reg, tables[p])
  }

  ghost predicate Sound(reg: seq<Region>, nextId: nat, tables: map<nat, Table>) {
    Ids(reg, nextId) && Counted(reg, tables) && Tables(reg, tables)
  }

  // ------------------------------------------------------------------- lemmas

  lemma {:induction false} WhereIs(reg: seq<Region>, id: nat, k: nat)
    requires k <= |reg| && (forall j :: 0 <= j < k ==> reg[j].id != id) && (k < |reg| ==> reg[k].id == id)
    ensures Where(reg, id) == k
  {
    if k > 0 { WhereIs(reg[1..], id, k - 1); }
  }

  lemma {:induction false} ActiveUpdate(s: seq<Entry>, h: nat, e: Entry)
    requires h < |s|
    ensures ActiveCount(s[h := e]) == ActiveCount(s) - (if s[h].active then 1 else 0) + (if e.active then 1 else 0)
  {
    if h == 0 {
      assert s[0 := e][1..] == s[1..];
    } else {
      ActiveUpdate(s[1..], h - 1, e);
      assert s[h := e][1..] == s[1..][h - 1 := e];
    }
  }

  lemma {:induction false} ActiveConcat(s: seq<Entry>, t: seq<Entry>)
    ensures ActiveCount(s + t) == ActiveCount(s) + ActiveCount(t)
  {
    if s == [] {
      assert s + t == t;
    } else {
      assert (s + t)[1..] == s[1..] + t;
      ActiveConcat(s[1..], t);
    }
  }

  lemma {:induction false} NoneActive(s: seq<Entry>)
    requires forall h :: 0 <= h < |s| ==> !s[h].active
    ensures ActiveCount(s) == 0
  {
    if s != [] { NoneActive(s[1..]); }
  }

  /** Changing one slot of one table changes the handles by at most that pair. */
  lemma {:induction false} HandlesUpdate(tables: map<nat, Table>, p: nat, h: nat, e: Entry, count: nat, id: nat)
    requires p in tables && h < |tables[p].slots|
    ensures var tables' := tables[p := Table(tables[p].slots[h := e], count)];
            Handles(tables', id) == (Handles(tables, id) - {(p, h)}) + (if Names(e, id) then {(p, h)} else {})
    ensures (p, h) in Handles(tables, id) <==> Names(tables[p].slots[h], id)
  {
  }

  /** Replacing a table by one with the same active handles at the same slots changes no handle. */
  lemma {:induction false} HandlesGrow(tables: map<nat, Table>, p: nat, n: nat, id: nat)
    requires p in tables
    ensures Handles(tables[p := Table(Grown(tables[p].slots, n), tables[p].count)], id) == Handles(tables, id)
  {
    var tables' := tables[p := Table(Grown(tables[p].slots, n), tables[p].count)];
    forall q, h ensures (q, h) in Handles(tables', id) <==> (q, h) in Handles(tables, id) {
    }
  }

  /** `proc_alloc_shmem_slot`'s larger table: the old slots followed by inactive ones. */
  function Grown(s: seq<Entry>, n: nat): (r: seq<Entry>)
    ensures |r| == |s| + n
    ensures forall h :: 0 <= h < |r| ==> r[h] == if h < |s| then s[h] else NO_ENTRY
  {
    s + seq(n, _ => NO_ENTRY)
  }

  ghost function Bumped(reg: seq<Region>, k: nat): seq<Region>
    requires k < |reg|
  {
    reg[k := reg[k].(refs := reg[k].refs + 1)]
  }

  /** The registry after one handle to region `k` is gone. */
  ghost function Dropped(reg: seq<Region>, k: nat): seq<Region>
    requires k < |reg|
  {
    if reg[k].refs > 1 then reg[k := reg[k].(refs := reg[k].refs - 1)] else reg[..k] + reg[k + 1..]
  }

  lemma {:induction false} WhereUpdate(reg: seq<Region>, k: nat, r: Region, id: nat)
    requires k < |reg| && r.id == reg[k].id
    ensures Where(reg[k := r], id) == Where(reg, id)
  {
    WhereIs(reg[k := r], id, Where(reg, id));
  }

  lemma {:induction false} WhereRemoved(reg: seq<Region>, k: nat, id: nat)
    requires k < |reg| && id != reg[k].id
    ensures Where(reg[..k] + reg[k + 1..], id) == if Where(reg, id) < k then Where(reg, id) else Where(reg, id) - 1
  {
    var w := Where(reg, id);
    WhereIs(reg[..k] + reg[k + 1..], id, if w < k then w else w - 1);
  }

  /** Every id other than that of region `k` resolves as before once a handle to region `k` is dropped. */
  lemma {:induction false} DroppedOthers(reg: seq<Region>, k: nat, id: nat)
    requires k < |reg| && id != reg[k].id
    ensures Registered(Dropped(reg, k), id) == Registered(reg, id) && PagesOf(Dropped(reg, k), id) == PagesOf(reg, id)
  {
    if reg[k].refs > 1 {
      WhereUpdate(reg, k, reg[k].(refs := reg[k].refs - 1), id);
    } else {
      WhereRemoved(reg, k, id);
    }
  }

  lemma {:induction false} BumpedAll(reg: seq<Region>, k: nat, id: nat)
    requires k < |reg|
    ensures Registered(Bumped(reg, k), id) == Registered(reg, id) && PagesOf(Bumped(reg, k), id) == PagesOf(reg, id)
  {
    WhereUpdate(reg, k, reg[k].(refs := reg[k].refs + 1), id);
  }

  /** The handle tables after slot `h` of process `p` is set. */
  ghost function SetSlot(tables: map<nat, Table>, p: nat, h: nat, e: Entry, count: nat): map<nat, Table>
    requires p in tables && h < |tables[p].slots|
  {
    tables[p := Table(tables[p].slots[h := e], count)]
  }

  /** The handle tables after slot `h` of process `p` is given up. */
  ghost function Cleared(tables: map<nat, Table>, p: nat, h: nat): map<nat, Table>
    requires p in tables && h < |tables[p].slots|
  {
    SetSlot(tables, p, h, NO_ENTRY, if tables[p].count > 0 then tables[p].count - 1 else 0)
  }

  lemma {:induction false} AttachCounted(reg: seq<Region>, tables: map<nat, Table>, nextId: nat, p: nat, h: nat, e: Entry, k: nat)
    requires Ids(reg, nextId) && Counted(reg, tables) && p in tables && h < |tables[p].slots|
    requires !tables[p].slots[h].active && e.active && k < |reg| && reg[k].id == e.id
    ensures Counted(Bumped(reg, k), SetSlot(tables, p, h, e, tables[p].count + 1))
  {
    var tables' := SetSlot(tables, p, h, e, tables[p].count + 1);
    forall i | 0 <= i < |reg| ensures Bumped(reg, k)[i].refs == |Handles(tables', reg[i].id)| {
      AttachHandles(tables, p, h, e, tables[p].count + 1, reg[i].id);
    }
    hide Handles, SetSlot;
  }

  lemma {:induction false} AttachHandles(tables: map<nat, Table>, p: nat, h: nat, e: Entry, count: nat, id: nat)
    requires p in tables && h < |tables[p].slots| && !tables[p].slots[h].active
    ensures |Handles(SetSlot(tables, p, h, e, count), id)| == |Handles(tables, id)| + (if Names(e, id) then 1 else 0)
  {
    HandlesUpdate(tables, p, h, e, count, id);
    hide Handles;
    assert (p, h) !in Handles(tables, id);
    assert Handles(tables, id) - {(p, h)} == Handles(tables, id);
  }

  lemma {:induction false} DetachHandles(tables: map<nat, Table>, p: nat, h: nat, count: nat, id: nat)
    requires p in tables && h < |tables[p].slots|
    ensures |Handles(SetSlot(tables, p, h, NO_ENTRY, count), id)|
         == |Handles(tables, id)| - (if Names(tables[p].slots[h], id) then 1 else 0)
  {
    HandlesUpdate(tables, p, h, NO_ENTRY, count, id);
    hide Handles;
    if (p, h) !in Handles(tables, id) {
      assert Handles(tables, id) - {(p, h)} == Handles(tables, id);
    }
  }

  lemma {:induction false} DetachCounted(reg: seq<Region>, tables: map<nat, Table>, nextId: nat, p: nat, h: nat, count: nat, k: nat)
    requires Ids(reg, nextId) && Counted(reg, tables) && p in tables && h < |tables[p].slots|
    requires k < |reg| && Names(tables[p].slots[h], reg[k].id)
    ensures reg[k].refs > 0 && Counted(Dropped(reg, k), SetSlot(tables, p, h, NO_ENTRY, count))
  {
    hide Handles;
    var tables', reg' := SetSlot(tables, p, h, NO_ENTRY, count), Dropped(reg, k);
    DetachHandles(tables, p, h, count, reg[k].id);
    forall i | 0 <= i < |reg'| ensures reg'[i].refs == |Handles(tables', reg'[i].id)| {
      var j := if reg[k].refs > 1 || i < k then i else i + 1;
      assert reg'[i].id == reg[j].id;
      DetachHandles(tables, p, h, count, reg[j].id);
    }
  }

  /** Attaching keeps every promise about counts, uniqueness and resolution. */
  lemma {:induction false} AttachSound(reg: seq<Region>, nextId: nat, tables: map<nat, Table>, p: nat, h: nat, e: Entry, k: nat)
    requires Sound(reg, nextId, tables) && p in tables && h < |tables[p].slots|
    requires !tables[p].slots[h].active && e.active && k < |reg| && reg[k].id == e.id && e.pages == reg[k].pages
    requires forall g :: 0 <= g < |tables[p].slots| ==> !Names(tables[p].slots[g], e.id)
    ensures Sound(Bumped(reg, k), nextId, SetSlot(tables, p, h, e, tables[p].count + 1))
  {
    AttachCounted(reg, tables, nextId, p, h, e, k);
    ActiveUpdate(tables[p].slots, h, e);
    WhereIs(reg, e.id, k);
    forall id ensures Registered(Bumped(reg, k), id) == Registered(reg, id) && PagesOf(Bumped(reg, k), id) == PagesOf(reg, id) {
      BumpedAll(reg, k, id);
    }
    AttachTables(reg, Bumped(reg, k), tables, p, h, e);
  }

  lemma {:induction false} AttachTables(reg: seq<Region>, reg': seq<Region>, tables: map<nat, Table>, p: nat, h: nat, e: Entry)
    requires Tables(reg, tables) && p in tables && h < |tables[p].slots| && !tables[p].slots[h].active && e.active
    requires forall id :: Registered(reg', id) == Registered(reg, id) && PagesOf(reg', id) == PagesOf(reg, id)
    requires Registered(reg, e.id) && PagesOf(reg, e.id) == e.pages
    requires ActiveCount(tables[p].slots[h := e]) == ActiveCount(tables[p].slots) + 1
    requires forall g :: 0 <= g < |tables[p].slots| ==> !Names(tables[p].slots[g], e.id)
    ensures Tables(reg', SetSlot(tables, p, h, e, tables[p].count + 1))
  {
    assert TableOk(reg, tables[p]);
    hide Registered, PagesOf, ActiveCount;
  }

  lemma {:induction false} ActiveAt(s: seq<Entry>, h: nat)
    requires h < |s| && s[h].active
    ensures ActiveCount(s) > 0
  {
    if h > 0 { ActiveAt(s[1..], h - 1); }
  }

  lemma {:induction false} DroppedIds(reg: seq<Region>, nextId: nat, k: nat)
    requires Ids(reg, nextId) && k < |reg|
    ensures Ids(Dropped(reg, k), nextId)
  {
  }

  lemma {:induction false} DetachTables(reg: seq<Region>, tables: map<nat, Table>, p: nat, h: nat, k: nat, last: bool)
    requires Tables(reg, tables) && p in tables && h < |tables[p].slots|
    requires k < |reg| && Names(tables[p].slots[h], reg[k].id)
    requires ActiveCount(tables[p].slots[h := NO_ENTRY]) == ActiveCount(tables[p].slots) - 1
    requires last <==> reg[k].refs <= 1
    requires last ==> forall q, g :: q in tables && 0 <= g < |tables[q].slots| && Names(tables[q].slots[g], reg[k].id) ==> q == p && g == h
    ensures Tables(Dropped(reg, k), SetSlot(tables, p, h, NO_ENTRY, tables[p].count - 1))
  {
    var reg', tables' := Dropped(reg, k), SetSlot(tables, p, h, NO_ENTRY, tables[p].count - 1);
    forall q | q in tables' ensures TableOk(reg', tables'[q]) {
      assert TableOk(reg, tables[q]);
      forall g | 0 <= g < |tables'[q].slots| && tables'[q].slots[g].active
        ensures tables'[q].slots[g] == tables[q].slots[g]
        ensures Registered(reg', tables[q].slots[g].id) && PagesOf(reg', tables[q].slots[g].id) == PagesOf(reg, tables[q].slots[g].id)
      {
        DroppedResolves(reg, k, tables[q].slots[g].id, last);
      }
    }
  }

  lemma {:induction false} DroppedResolves(reg: seq<Region>, k: nat, id: nat, last: bool)
    requires k < |reg| && (last <==> reg[k].refs <= 1) && (last ==> id != reg[k].id)
    ensures Registered(Dropped(reg, k), id) == Registered(reg, id) && PagesOf(Dropped(reg, k), id) == PagesOf(reg, id)
  {
    if id != reg[k].id {
      DroppedOthers(reg, k, id);
    } else {
      WhereUpdate(reg, k, reg[k].(refs := reg[k].refs - 1), id);
    }
  }

  /** The only handle to a region with one reference. */
  lemma {:induction false} OnlyHandle(tables: map<nat, Table>, p: nat, h: nat, id: nat)
    requires p in tables && h < |tables[p].slots| && Names(tables[p].slots[h], id)
    requires |Handles(tables, id)| <= 1
    ensures forall q, g :: q in tables && 0 <= g < |tables[q].slots| && Names(tables[q].slots[g], id) ==> q == p && g == h
  {
    forall q, g | q in tables && 0 <= g < |tables[q].slots| && Names(tables[q].slots[g], id) ensures q == p && g == h {
      if (q, g) != (p, h) {
        assert {(p, h), (q, g)} <= Handles(tables, id);
        Subset({(p, h), (q, g)}, Handles(tables, id));
      }
    }
  }

  lemma {:induction false} Subset<T>(a: set<T>, b: set<T>)
    requires a <= b
    ensures |a| <= |b|
  {
    if a != {} {
      var x :| x in a;
      Subset(a - {x}, b - {x});
    }
  }

  /** Detaching keeps them too, and the region leaves the registry exactly when its last handle goes. */
  lemma {:induction false} DetachSound(reg: seq<Region>, nextId: nat, tables: map<nat, Table>, p: nat, h: nat, k: nat)
    requires Sound(reg, nextId, tables) && p in tables && h < |tables[p].slots|
    requires k < |reg| && Names(tables[p].slots[h], reg[k].id)
    ensures tables[p].count > 0 && reg[k].refs > 0
    ensures Sound(Dropped(reg, k), nextId, Cleared(tables, p, h))
    ensures !Registered(Dropped(reg, k), reg[k].id) <==> |Handles(tables, reg[k].id)| == 1
  {
    hide Handles, ActiveCount, Where;
    assert TableOk(reg, tables[p]);
    ActiveAt(tables[p].slots, h);
    ActiveUpdate(tables[p].slots, h, NO_ENTRY);
    DetachCounted(reg, tables, nextId, p, h, tables[p].count - 1, k);
    DroppedIds(reg, nextId, k);
    if reg[k].refs <= 1 { OnlyHandle(tables, p, h, reg[k].id); }
    DetachTables(reg, tables, p, h, k, reg[k].refs <= 1);
    DroppedGone(reg, nextId, k);
  }

  lemma {:induction false} DroppedGone(reg: seq<Region>, nextId: nat, k: nat)
    requires Ids(reg, nextId) && k < |reg|
    ensures Registered(Dropped(reg, k), reg[k].id) <==> reg[k].refs > 1
  {
    if reg[k].refs > 1 {
      WhereIs(Dropped(reg, k), reg[k].id, k);
    } else {
      WhereIs(Dropped(reg, k), reg[k].id, |reg| - 1);
    }
  }

  /** The first inactive slot, or the length of the table. */
  ghost function FirstInactive(s: seq<Entry>): (h: nat)
    ensures h <= |s| && (h < |s| ==> !s[h].active) && forall g :: 0 <= g < h ==> s[g].active
  {
    if s == [] || !s[0].active then 0 else 1 + FirstInactive(s[1..])
  }

  /** A table with room for one more handle: as it is, or doubled (from nothing to 4). */
  ghost function WithRoom(s: seq<Entry>): (r: seq<Entry>)
    ensures |s| <= |r| && FirstInactive(s) < |r| && !r[FirstInactive(s)].active
    ensures forall h :: 0 <= h < |s| ==> r[h] == s[h]
  {
    if FirstInactive(s) < |s| then s else Grown(s, if s == [] then FIRST_CAPACITY else |s|)
  }

  /** A table grows only when every slot is taken: to 4 slots at first, then to twice as many; the new slots are free. */
  lemma {:induction false} WithRoomIs(s: seq<Entry>)
    ensures (exists h :: 0 <= h < |s| && !s[h].active) ==> WithRoom(s) == s
    ensures (forall h :: 0 <= h < |s| ==> s[h].active) ==>
              && |WithRoom(s)| == (if |s| == 0 then 4 else 2 * |s|) && WithRoom(s)[..|s|] == s
              && forall h :: |s| <= h < |WithRoom(s)| ==> !WithRoom(s)[h].active
  {
    hide FirstInactive;
  }

  /** The handle of `s` naming `id`, or the length of the table. */
  ghost function HandleOf(s: seq<Entry>, id: nat): (h: nat)
    ensures h <= |s| && (h < |s| ==> Names(s[h], id)) && forall g :: 0 <= g < h ==> !Names(s[g], id)
  {
    if s == [] || Names(s[0], id) then 0 else 1 + HandleOf(s[1..], id)
  }

  lemma {:induction false} FirstInactiveIs(s: seq<Entry>, h: nat)
    requires h <= |s| && (forall g :: 0 <= g < h ==> s[g].active) && (h < |s| ==> !s[h].active)
    ensures FirstInactive(s) == h
  {
    if h > 0 { FirstInactiveIs(s[1..], h - 1); }
  }

  lemma {:induction false} HandleOfIs(s: seq<Entry>, id: nat, h: nat)
    requires h <= |s| && (forall g :: 0 <= g < h ==> !Names(s[g], id)) && (h < |s| ==> Names(s[h], id))
    ensures HandleOf(s, id) == h
  {
    if h > 0 { HandleOfIs(s[1..], id, h - 1); }
  }

  /** Making room changes no handle, and the promises hold for the larger table. */
  lemma {:induction false} RoomSound(reg: seq<Region>, nextId: nat, tables: map<nat, Table>, p: nat)
    requires Sound(reg, nextId, tables) && p in tables
    ensures Sound(reg, nextId, tables[p := Table(WithRoom(tables[p].slots), tables[p].count)])
  {
    var s := tables[p].slots;
    assert TableOk(reg, tables[p]);
    if FirstInactive(s) < |s| {
      assert tables[p := Table(s, tables[p].count)] == tables;
    } else {
      var n := if s == [] then FIRST_CAPACITY else |s|;
      forall id { HandlesGrow(tables, p, n, id); }
      GrownOk(reg, tables[p], n);
    }
  }

  lemma {:induction false} GrownOk(reg: seq<Region>, t: Table, n: nat)
    requires TableOk(reg, t)
    ensures TableOk(reg, Table(Grown(t.slots, n), t.count))
  {
    var more := seq(n, _ => NO_ENTRY);
    ActiveConcat(t.slots, more);
    NoneActive(more);
    assert Grown(t.slots, n) == t.slots + more;
  }

  class Ipc {
    var registry: seq<Region>
    var nextId: nat
    var tables: map<nat, Table>

    ghost predicate Valid() reads this {
      nextId > 0 && Sound(registry, nextId, tables)
    }

    constructor ()
      ensures Valid() && registry == [] && tables == map[]
    {
      registry, nextId, tables := [], 1, map[];
    }

    /** `shmem_find_global`, as a position in the list. */
    method Find(id: nat) returns (k: nat)
      ensures k == Where(registry, id)
    {
      k := 0;
      while k < |registry|
        invariant k <= |registry| && forall j :: 0 <= j < k ==> registry[j].id != id
      {
        if registry[k].id == id {
          break;
        }
        k := k + 1;
      }
      WhereIs(registry, id, k);
    }

    /** A new process starts with no handles. */
    method AddProcess(p: nat)
      requires Valid() && p !in tables
      modifies `tables
      ensures Valid() && tables == old(tables)[p := Table([], 0)]
    {
      EmptyTable(registry, nextId, tables, p);
      tables := tables[p := Table([], 0)];
    }

    /** `shmem_create_region`, given the frame it allocated (0 when there was none). */
    method CreateRegion(pages: nat, flags: nat, phys: nat) returns (id: int)
      requires Valid()
      modifies `registry, `nextId
      ensures Valid()
      ensures phys == 0 ==> id == -1 && registry == old(registry) && nextId == old(nextId)
      ensures phys != 0 ==> id == old(nextId) && nextId == old(nextId) + 1
      ensures phys != 0 ==> registry == [Region(id, phys, if pages == 0 then 1 else pages, flags, 0)] + old(registry)
    {
      if phys == 0 {
        return -1;
      }
      var r := Region(nextId, phys, if pages == 0 then 1 else pages, flags, 0);
      CreateSound(registry, nextId, tables, r);
      id := nextId;
      nextId := nextId + 1;
      registry := [r] + registry;
    }

    /** `proc_alloc_shmem_slot` */
    method AllocSlot(p: nat) returns (slot: nat)
      requires Valid() && p in tables
      modifies `tables
      ensures Valid() && slot == FirstInactive(old(tables)[p].slots)
      ensures tables == old(tables)[p := Table(WithRoom(old(tables)[p].slots), old(tables)[p].count)]
    {
      hide Sound;
      RoomSound(registry, nextId, tables, p);
      var s := tables[p].slots;
      slot := 0;
      while slot < |s|
        invariant slot <= |s| && forall g :: 0 <= g < slot ==> s[g].active
      {
        if !s[slot].active {
          FirstInactiveIs(s, slot);
          assert tables == tables[p := Table(s, tables[p].count)];
          return;
        }
        slot := slot + 1;
      }
      FirstInactiveIs(s, slot);
      tables := tables[p := Table(Grown(s, if s == [] then FIRST_CAPACITY else |s|), tables[p].count)];
    }

    /** `shmem_attach_proc`: the handle, or -1, and the region to map when the handle is new. A process holds
        at most one handle to a region. */
    method Attach(p: nat, id: nat, va: nat) returns (handle: int, added: Option<Region>)
      requires Valid() && p in tables
      modifies `tables, `registry
      ensures Valid()
      ensures var k, s := Where(old(registry), id), old(tables)[p].slots;
              if id == 0 || k == |old(registry)| || old(registry)[k].pages == 0 || old(registry)[k].phys == 0 then
                handle == -1 && added == None && registry == old(registry) && tables == old(tables)
              else if HandleOf(s, id) < |s| then
                handle == HandleOf(s, id) && added == None && registry == old(registry) && tables == old(tables)
              else
                && handle == FirstInactive(s) && added == Some(old(registry)[k]) && registry == Bumped(old(registry), k)
                && tables == old(tables)[p := Table(WithRoom(s)[handle := Entry(true, id, va, old(registry)[k].pages)], old(tables)[p].count + 1)]
    {
      hide Sound, WithRoom, Where, FirstInactive, HandleOf;
      if id == 0 {
        return -1, None;
      }
      var k := Find(id);
      if k == |registry| || registry[k].pages == 0 || registry[k].phys == 0 {
        return -1, None;
      }
      var s := tables[p].slots;
      var h := 0;
      while h < |s|
        invariant h <= |s| && forall g :: 0 <= g < h ==> !Names(s[g], id)
      {
        if Names(s[h], id) {
          HandleOfIs(s, id, h);
          return h, None;
        }
        h := h + 1;
      }
      HandleOfIs(s, id, h);
      var slot := AllocSlot(p);
      var e := Entry(true, id, va, registry[k].pages);
      RoomUnnamed(s, id);
      AttachSound(registry, nextId, tables, p, slot, e, k);
      tables := tables[p := Table(tables[p].slots[slot := e], tables[p].count + 1)];
      var r := registry[k];
      registry := registry[k := r.(refs := r.refs + 1)];
      return slot, Some(r);
    }

    /** `shmem_detach_proc`: gives up a handle; the region is released with its last one. */
    method Detach(p: nat, handle: int) returns (ok: bool, freed: Option<Region>)
      requires Valid() && p in tables
      modifies `tables, `registry
      ensures Valid()
      ensures ok <==> 0 <= handle < |old(tables)[p].slots| && old(tables)[p].slots[handle].active
      ensures !ok ==> registry == old(registry) && tables == old(tables) && freed == None
      ensures ok ==> tables == Cleared(old(tables), p, handle)
      ensures ok ==> var k := Where(old(registry), old(tables)[p].slots[handle].id);
                     && k < |old(registry)| && registry == Dropped(old(registry), k)
                     && freed == if old(registry)[k].refs == 1 then Some(old(registry)[k]) else None
    {
      hide Sound, Where, Registered, PagesOf, ActiveCount;
      if handle < 0 || handle >= |tables[p].slots| || !tables[p].slots[handle].active {
        return false, None;
      }
      var id := tables[p].slots[handle].id;
      HandleResolves(registry, nextId, tables, p, handle);
      var k := Find(id);
      DetachSound(registry, nextId, tables, p, handle, k);
      tables := tables[p := Table(tables[p].slots[handle := NO_ENTRY], if tables[p].count > 0 then tables[p].count - 1 else 0)];
      var r := registry[k];
      freed := None;
      if r.refs > 0 {
        registry := registry[k := r.(refs := r.refs - 1)];
      }
      if registry[k].refs == 0 {
        freed := Some(r);
        registry := registry[..k] + registry[k + 1..];
      }
      return true, freed;
    }

    /** The end of `ipc_process_cleanup`: a table without active handles is released. */
    method DropTable(p: nat)
      requires Valid() && p in tables && forall h :: 0 <= h < |tables[p].slots| ==> !tables[p].slots[h].active
      modifies `tables
      ensures Valid() && tables == old(tables)[p := Table([], 0)]
    {
      hide Sound;
      DropSound(registry, nextId, tables, p);
      tables := tables[p := Table([], 0)];
    }

    method RemoveProcess(p: nat)
      requires Valid() && p in tables && tables[p].slots == []
      modifies `tables
      ensures Valid() && tables == old(tables) - {p}
    {
      RemoveSound(registry, nextId, tables, p);
      tables := tables - {p};
    }
  }

  lemma {:induction false} EmptyTable(reg: seq<Region>, nextId: nat, tables: map<nat, Table>, p: nat)
    requires Sound(reg, nextId, tables) && p !in tables
    ensures Sound(reg, nextId, tables[p := Table([], 0)])
  {
    forall id ensures Handles(tables[p := Table([], 0)], id) == Handles(tables, id) {}
  }

  lemma {:induction false} CreateSound(reg: seq<Region>, nextId: nat, tables: map<nat, Table>, r: Region)
    requires Sound(reg, nextId, tables) && r.id == nextId > 0 && r.refs == 0
    ensures Sound([r] + reg, nextId + 1, tables)
  {
    var reg' := [r] + reg;
    forall i | 0 <= i < |reg'| ensures reg'[i].refs == |Handles(tables, reg'[i].id)| {
      if i == 0 { NoHandles(reg, nextId, tables, nextId); }
    }
    forall id: nat | id < nextId ensures Registered(reg', id) == Registered(reg, id) && PagesOf(reg', id) == PagesOf(reg, id) {
      assert reg'[1..] == reg && reg'[0].id == nextId;
    }
    forall p | p in tables ensures TableOk(reg', tables[p]) {
      assert TableOk(reg, tables[p]);
      forall h | 0 <= h < |tables[p].slots| && tables[p].slots[h].active ensures tables[p].slots[h].id < nextId {
        assert Registered(reg, tables[p].slots[h].id);
      }
    }
  }

  /** No handle names an id that has not been given out. */
  lemma {:induction false} NoHandles(reg: seq<Region>, nextId: nat, tables: map<nat, Table>, id: nat)
    requires Ids(reg, nextId) && Tables(reg, tables) && id >= nextId
    ensures Handles(tables, id) == {}
  {
    forall p, h | p in tables && 0 <= h < |tables[p].slots| && tables[p].slots[h].active
      ensures tables[p].slots[h].id < nextId
    {
      assert TableOk(reg, tables[p]) && Registered(reg, tables[p].slots[h].id);
    }
  }

  lemma {:induction false} RoomUnnamed(s: seq<Entry>, id: nat)
    requires forall g :: 0 <= g < |s| ==> !Names(s[g], id)
    ensures forall g :: 0 <= g < |WithRoom(s)| ==> !Names(WithRoom(s)[g], id)
    ensures FirstInactive(s) < |WithRoom(s)| && !WithRoom(s)[FirstInactive(s)].active
  {
  }

  lemma {:induction false} HandleResolves(reg: seq<Region>, nextId: nat, tables: map<nat, Table>, p: nat, h: nat)
    requires Sound(reg, nextId, tables) && p in tables && h < |tables[p].slots| && tables[p].slots[h].active
    ensures Where(reg, tables[p].slots[h].id) < |reg|
  {
    assert TableOk(reg, tables[p]) && Registered(reg, tables[p].slots[h].id);
  }

  lemma {:induction false} DropSound(reg: seq<Region>, nextId: nat, tables: map<nat, Table>, p: nat)
    requires Sound(reg, nextId, tables) && p in tables
    requires forall h :: 0 <= h < |tables[p].slots| ==> !tables[p].slots[h].active
    ensures Sound(reg, nextId, tables[p := Table([], 0)])
  {
    forall id ensures Handles(tables[p := Table([], 0)], id) == Handles(tables, id) {}
  }

  lemma {:induction false} RemoveSound(reg: seq<Region>, nextId: nat, tables: map<nat, Table>, p: nat)
    requires Sound(reg, nextId, tables) && p in tables && tables[p].slots == []
    ensures Sound(reg, nextId, tables - {p})
  {
    forall id ensures Handles(tables - {p}, id) == Handles(tables, id) {}
  }
}
