/** The block cache of src/kernel/kern_ext2.c: an open-addressing hash table with linear probing in front of
    the disk, with least-recently-used eviction by a tick counter. */
module BlockCache {
  import opened Bytes
  import opened Options

  const MIN_ENTRIES: nat := 16
  const MAX_ENTRIES: nat := 16384

  type Block = seq<byte>
  datatype Key = Key(drive: nat, block: nat)
  datatype Slot = Empty | Entry(key: Key, data: Block, stamp: nat)

  // ---------------------------------------------------------------- probing

  /** `(slot + 1) & (cap - 1)` for a power-of-two capacity. */
  function NextSlot(slot: nat, cap: nat): (r: nat)
    requires slot < cap
    ensures r < cap
  {
    if slot + 1 == cap then 0 else slot + 1
  }

  /** How many probes after `start` the probe sequence reaches `slot`. */
  function Probes(start: nat, slot: nat, cap: nat): int
  {
    if start <= slot then slot - start else slot + cap - start
  }

  function Home(hash: Key -> nat, k: Key, cap: nat): (h: nat)
    requires cap > 0
    ensures h < cap
  {
    hash(k) % cap
  }

  predicate Holds(s: Slot, k: Key) {
    s.Entry? && s.key == k
  }

  ghost predicate Absent(t: seq<Slot>, k: Key) {
    forall i :: 0 <= i < |t| ==> !Holds(t[i], k)
  }

  ghost predicate Full(t: seq<Slot>) {
    forall i :: 0 <= i < |t| ==> t[i].Entry?
  }

  // -------------------------------------------------------------- invariants

  ghost predicate Unique(t: seq<Slot>) {
    forall i, j :: 0 <= i < |t| && 0 <= j < |t| && t[i].Entry? && t[j].Entry? && t[i].key == t[j].key ==> i == j
  }

  /** No empty slot lies on the probe path from an entry's home slot to the entry. */
  ghost predicate NoGap(t: seq<Slot>, hash: Key -> nat) {
    forall i, j ::
      0 <= i < |t| && 0 <= j < |t| && t[i].Entry?
      && Probes(Home(hash, t[i].key, |t|), j, |t|) <= Probes(Home(hash, t[i].key, |t|), i, |t|)
      ==> t[j].Entry?
  }

  /** The listed slots are occupied and their stamps strictly descend from at most `tick`. */
  ghost predicate Descending(t: seq<Slot>, order: seq<nat>, tick: nat) {
    && (forall p :: 0 <= p < |order| ==> order[p] < |t| && t[order[p]].Entry? && t[order[p]].stamp <= tick)
    && (forall p, q :: 0 <= p < q < |order| ==> t[order[p]].stamp > t[order[q]].stamp)
  }

  /** `order` lists the occupied slots, most recently touched first. */
  ghost predicate Ordered(t: seq<Slot>, order: seq<nat>, tick: nat) {
    && Descending(t, order, tick)
    && (forall i :: 0 <= i < |t| && t[i].Entry? ==> i in order)
  }

  function Occupied(t: seq<Slot>): (n: nat)
    ensures n <= |t|
  {
    if t == [] then 0 else (if t[0].Entry? then 1 else 0) + Occupied(t[1..])
  }

  ghost predicate Shape(t: seq<Slot>, order: seq<nat>, tick: nat, used: nat, hash: Key -> nat) {
    Unique(t) && NoGap(t, hash) && Ordered(t, order, tick) && |order| == used == Occupied(t)
  }

  /** Every cached block other than `but` equals the disk's. */
  ghost predicate AgreesBut(t: seq<Slot>, disk: map<Key, Block>, but: Option<Key>) {
    forall i :: 0 <= i < |t| && t[i].Entry? && Some(t[i].key) != but ==> t[i].key in disk && t[i].data == disk[t[i].key]
  }

  // ---------------------------------------------- the abstract recency list

  function Without<T(==)>(s: seq<T>, x: T): (r: seq<T>)
    ensures |r| == if x in s then |s| - 1 else |s|
  {
    if s == [] then [] else if s[0] == x then s[1..] else [s[0]] + Without(s[1..], x)
  }

  /** Touching `k` in a most-recently-used list of at most `cap` keys. */
  function Touch(l: seq<Key>, k: Key, cap: nat): seq<Key> {
    [k] + if k in l then Without(l, k) else if |l| < cap || l == [] then l else l[..|l| - 1]
  }

  ghost function KeysOf(t: seq<Slot>, order: seq<nat>): (r: seq<Key>)
    ensures |r| == |order|
  {
    seq(|order|, p requires 0 <= p < |order| =>
      if order[p] < |t| && t[order[p]].Entry? then t[order[p]].key else Key(0, 0))
  }

  // ------------------------------------------------------------- storing

  /** Slot `i` may take key `k`: it holds `k`, or `k` is absent and `i` is where its probe path ends. */
  ghost predicate MayStore(t: seq<Slot>, i: nat, k: Key, hash: Key -> nat) {
    && i < |t|
    && (forall j :: 0 <= j < |t| && j != i ==> !Holds(t[j], k))
    && (Holds(t[i], k) || Full(t)
        || (t[i].Empty? && forall j :: 0 <= j < |t| && Probes(Home(hash, k, |t|), j, |t|) < Probes(Home(hash, k, |t|), i, |t|) ==> t[j].Entry?))
  }

  lemma {:induction false} StoreUnique(t: seq<Slot>, i: nat, k: Key, d: Block, tick: nat, hash: Key -> nat)
    requires Unique(t) && MayStore(t, i, k, hash)
    ensures Unique(t[i := Entry(k, d, tick + 1)])
  {
  }

  lemma {:induction false} StoreNoGap(t: seq<Slot>, i: nat, k: Key, d: Block, tick: nat, hash: Key -> nat)
    requires NoGap(t, hash) && MayStore(t, i, k, hash)
    ensures NoGap(t[i := Entry(k, d, tick + 1)], hash)
  {
  }

  lemma {:induction false} StoreAgrees(t: seq<Slot>, i: nat, k: Key, d: Block, tick: nat, hash: Key -> nat, disk: map<Key, Block>)
    requires MayStore(t, i, k, hash) && AgreesBut(t, disk, Some(k)) && k in disk && disk[k] == d
    ensures AgreesBut(t[i := Entry(k, d, tick + 1)], disk, None)
  {
  }

  lemma {:induction false} WithoutAt<T>(s: seq<T>, p: nat)
    requires p < |s| && forall q :: 0 <= q < p ==> s[q] != s[p]
    ensures Without(s, s[p]) == s[..p] + s[p + 1..]
  {
    if p > 0 {
      WithoutAt(s[1..], p - 1);
      assert s[1..][p - 1] == s[p];
      assert [s[0]] + (s[1..][..p - 1] + s[1..][p..]) == s[..p] + s[p + 1..];
    }
  }

  lemma {:induction false} WithoutAbsent<T>(s: seq<T>, x: T)
    requires x !in s
    ensures Without(s, x) == s
  {
    if s != [] {
      WithoutAbsent(s[1..], x);
    }
  }

  /** The recency order after slot `i` is touched. */
  ghost function Renewed(order: seq<nat>, i: nat): seq<nat> {
    [i] + Without(order, i)
  }

  ghost predicate Distinct<T>(s: seq<T>) {
    forall p, q :: 0 <= p < q < |s| ==> s[p] != s[q]
  }

  lemma {:induction false} SplitAround<T>(s: seq<T>, x: T) returns (front: seq<T>, back: seq<T>)
    requires Distinct(s)
    ensures Without(s, x) == front + back && x !in front && x !in back
    ensures s == if x in s then front + [x] + back else front + back
  {
    if x in s {
      var p :| 0 <= p < |s| && s[p] == x;
      front, back := s[..p], s[p + 1..];
      WithoutAt(s, p);
    } else {
      front, back := s, [];
      WithoutAbsent(s, x);
    }
  }

  lemma {:induction false} OrderedSub(t: seq<Slot>, order: seq<nat>, tick: nat, i: nat, front: seq<nat>, back: seq<nat>)
    requires Descending(t, order, tick)
    requires order == if i in order then front + [i] + back else front + back
    ensures Descending(t, front + back, tick)
  {
    var rest := front + back;
    if i in order {
      forall p | 0 <= p < |rest| ensures rest[p] == order[if p < |front| then p else p + 1] {}
    }
  }

  lemma {:induction false} StoreDescending(t: seq<Slot>, rest: seq<nat>, tick: nat, i: nat, k: Key, d: Block)
    requires Descending(t, rest, tick) && i < |t| && i !in rest
    ensures Descending(t[i := Entry(k, d, tick + 1)], [i] + rest, tick + 1)
  {
    var t', order' := t[i := Entry(k, d, tick + 1)], [i] + rest;
    forall p | 0 < p < |order'| ensures order'[p] == rest[p - 1] && t'[order'[p]] == t[rest[p - 1]] {}
  }

  lemma {:induction false} DistinctOrder(t: seq<Slot>, order: seq<nat>, tick: nat)
    requires Descending(t, order, tick)
    ensures Distinct(order)
  {
    forall p, q | 0 <= p < q < |order| ensures order[p] != order[q] {
      assert t[order[p]].stamp > t[order[q]].stamp;
    }
  }

  lemma {:induction false} StoreOrdered(t: seq<Slot>, order: seq<nat>, tick: nat, i: nat, k: Key, d: Block)
    requires Ordered(t, order, tick) && i < |t|
    ensures Ordered(t[i := Entry(k, d, tick + 1)], Renewed(order, i), tick + 1)
  {
    hide Descending, Distinct, Without;
    DistinctOrder(t, order, tick);
    var front, back := SplitAround(order, i);
    OrderedSub(t, order, tick, i, front, back);
    StoreDescending(t, front + back, tick, i, k, d);
    forall j | 0 <= j < |t| && j != i && t[j].Entry? ensures j in Renewed(order, i) {
      StillListed(order, i, front, back, j);
    }
  }

  lemma {:induction false} StillListed(order: seq<nat>, i: nat, front: seq<nat>, back: seq<nat>, j: nat)
    requires order == if i in order then front + [i] + back else front + back
    requires j in order && j != i
    ensures j in front + back
  {
  }

  lemma {:induction false} OccupiedUpdate(t: seq<Slot>, i: nat, s: Slot)
    requires i < |t|
    ensures Occupied(t[i := s]) == Occupied(t) - (if t[i].Entry? then 1 else 0) + (if s.Entry? then 1 else 0)
  {
    if i == 0 {
      assert t[0 := s][1..] == t[1..];
    } else {
      OccupiedUpdate(t[1..], i - 1, s);
      assert t[i := s][1..] == t[1..][i - 1 := s];
    }
  }

  lemma {:induction false} OccupiedFull(t: seq<Slot>)
    ensures Occupied(t) == |t| <==> Full(t)
  {
    if t != [] {
      OccupiedFull(t[1..]);
      if Full(t) {
        forall i | 0 <= i < |t[1..]| ensures t[1..][i].Entry? { assert t[i + 1].Entry?; }
      } else if t[0].Entry? {
        var i :| 0 <= i < |t| && t[i].Empty?;
        assert t[1..][i - 1].Empty?;
      }
    }
  }

  lemma {:induction false} KeysDistinct(t: seq<Slot>, order: seq<nat>, tick: nat)
    requires Unique(t) && Descending(t, order, tick)
    ensures Distinct(KeysOf(t, order))
  {
    DistinctOrder(t, order, tick);
    var l := KeysOf(t, order);
    forall p, q | 0 <= p < q < |l| ensures l[p] != l[q] {
      assert order[p] != order[q];
    }
  }

  lemma {:induction false} KeysSplit(t: seq<Slot>, front: seq<nat>, i: nat, back: seq<nat>, tick: nat)
    requires Descending(t, front + [i] + back, tick) && Unique(t)
    ensures Descending(t, front + back, tick)
    ensures i < |t| && t[i].Entry? && t[i].key in KeysOf(t, front + [i] + back)
    ensures Without(KeysOf(t, front + [i] + back), t[i].key) == KeysOf(t, front + back)
  {
    hide Descending, KeysOf, Unique, Without;
    var order := front + [i] + back;
    OrderedSub(t, order, tick, i, front, back);
    KeysDistinct(t, order, tick);
    KeysAround(t, front, i, back, tick);
    WithoutAt(KeysOf(t, order), |front|);
  }

  lemma {:induction false} KeysAround(t: seq<Slot>, front: seq<nat>, i: nat, back: seq<nat>, tick: nat)
    requires Descending(t, front + [i] + back, tick)
    ensures var l := KeysOf(t, front + [i] + back);
            && i < |t| && t[i].Entry? && l[|front|] == t[i].key
            && l[..|front|] + l[|front| + 1..] == KeysOf(t, front + back)
  {
    var order := front + [i] + back;
    assert order[|front|] == i;
    assert KeysOf(t, order)[..|front|] + KeysOf(t, order)[|front| + 1..] == KeysOf(t, front + back);
  }

  lemma {:induction false} KeysAfterStore(t: seq<Slot>, rest: seq<nat>, tick: nat, i: nat, k: Key, d: Block)
    requires Descending(t, rest, tick) && i < |t| && i !in rest
    ensures Descending(t[i := Entry(k, d, tick + 1)], [i] + rest, tick + 1)
    ensures KeysOf(t[i := Entry(k, d, tick + 1)], [i] + rest) == [k] + KeysOf(t, rest)
  {
    StoreDescending(t, rest, tick, i, k, d);
  }

  lemma {:induction false} AbsentKey(t: seq<Slot>, order: seq<nat>, tick: nat, k: Key)
    requires Descending(t, order, tick) && Absent(t, k)
    ensures k !in KeysOf(t, order)
  {
    if k in KeysOf(t, order) {
      var p :| 0 <= p < |order| && KeysOf(t, order)[p] == k;
      assert Holds(t[order[p]], k);
    }
  }

  lemma {:induction false} TouchHit(t: seq<Slot>, order: seq<nat>, tick: nat, i: nat, d: Block)
    requires Unique(t) && Ordered(t, order, tick) && i < |t| && t[i].Entry?
    requires |order| <= |t|
    ensures Ordered(t[i := Entry(t[i].key, d, tick + 1)], Renewed(order, i), tick + 1)
    ensures KeysOf(t[i := Entry(t[i].key, d, tick + 1)], Renewed(order, i)) == Touch(KeysOf(t, order), t[i].key, |t|)
  {
    StoreOrdered(t, order, tick, i, t[i].key, d);
    DistinctOrder(t, order, tick);
    var front, back := SplitAround(order, i);
    hide Distinct, Without, Unique;
    KeysSplit(t, front, i, back, tick);
    KeysAfterStore(t, front + back, tick, i, t[i].key, d);
  }

  lemma {:induction false} TouchFill(t: seq<Slot>, order: seq<nat>, tick: nat, i: nat, k: Key, d: Block)
    requires Ordered(t, order, tick) && Absent(t, k) && i < |t| && t[i].Empty?
    requires |order| < |t|
    ensures Ordered(t[i := Entry(k, d, tick + 1)], Renewed(order, i), tick + 1)
    ensures KeysOf(t[i := Entry(k, d, tick + 1)], Renewed(order, i)) == Touch(KeysOf(t, order), k, |t|)
  {
    StoreOrdered(t, order, tick, i, k, d);
    assert i !in order;
    WithoutAbsent(order, i);
    AbsentKey(t, order, tick, k);
    hide Without;
    KeysAfterStore(t, order, tick, i, k, d);
  }

  lemma {:induction false} TouchEvict(t: seq<Slot>, order: seq<nat>, tick: nat, i: nat, k: Key, d: Block)
    requires Ordered(t, order, tick) && Absent(t, k) && i < |t|
    requires |order| == |t| && order[|order| - 1] == i
    ensures Ordered(t[i := Entry(k, d, tick + 1)], Renewed(order, i), tick + 1)
    ensures KeysOf(t[i := Entry(k, d, tick + 1)], Renewed(order, i)) == Touch(KeysOf(t, order), k, |t|)
  {
    StoreOrdered(t, order, tick, i, k, d);
    DistinctOrder(t, order, tick);
    var n := |order| - 1;
    WithoutAt(order, n);
    AbsentKey(t, order, tick, k);
    assert order[..n] + order[n + 1..] == order[..n];
    hide Without, Distinct;
    KeysAfterStore(t, order[..n], tick, i, k, d);
    assert KeysOf(t, order[..n]) == KeysOf(t, order)[..n];
  }

  lemma {:induction false} LeastStampIsLast(t: seq<Slot>, order: seq<nat>, tick: nat, i: nat)
    requires Ordered(t, order, tick) && i < |t| && Full(t)
    requires forall j :: 0 <= j < |t| ==> t[i].stamp <= t[j].stamp
    ensures |order| > 0 && order[|order| - 1] == i
  {
    assert i in order;
    var p :| 0 <= p < |order| && order[p] == i;
    if p < |order| - 1 {
      assert t[order[p]].stamp > t[order[|order| - 1]].stamp;
    }
  }

  /** Touching after a store, whichever way the slot was found. */
  lemma {:induction false} StoreKeepsShape(t: seq<Slot>, order: seq<nat>, tick: nat, used: nat, i: nat, k: Key, d: Block, hash: Key -> nat)
    requires Shape(t, order, tick, used, hash) && MayStore(t, i, k, hash)
    requires Full(t) && !Holds(t[i], k) ==> forall j :: 0 <= j < |t| ==> t[i].stamp <= t[j].stamp
    ensures var t', used' := t[i := Entry(k, d, tick + 1)], if t[i].Empty? then used + 1 else used;
            && Shape(t', Renewed(order, i), tick + 1, used', hash)
            && KeysOf(t', Renewed(order, i)) == Touch(KeysOf(t, order), k, |t|)
  {
    StoreUnique(t, i, k, d, tick, hash);
    StoreNoGap(t, i, k, d, tick, hash);
    OccupiedUpdate(t, i, Entry(k, d, tick + 1));
    OccupiedFull(t);
    hide Unique, NoGap, Descending, Occupied;
    if Holds(t[i], k) {
      TouchHit(t, order, tick, i, d);
    } else {
      if t[i].Empty? {
        TouchFill(t, order, tick, i, k, d);
      } else {
        LeastStampIsLast(t, order, tick, i);
        TouchEvict(t, order, tick, i, k, d);
      }
    }
  }

  const NO_TICK: nat := 0xFFFF_FFFF_FFFF_FFFF

  datatype Probe = Present(slot: nat) | Vacant(slot: nat) | Oldest(slot: nat)

  class Cache {
    const hash: Key -> nat
    var table: seq<Slot>
    var used: nat
    var tick: nat
    var target: nat
    var disk: map<Key, Block>
    ghost var order: seq<nat>

    ghost predicate WellFormed() reads this {
      Shape(table, order, tick, used, hash)
    }

    ghost predicate Valid() reads this {
      WellFormed() && AgreesBut(table, disk, None)
    }

    /** The cached keys, most recently used first. */
    ghost function Lru(): seq<Key> reads this {
      KeysOf(table, order)
    }

    /** The probe loop that `bc_lookup` and `bc_update` share: empty slots are stepped over. */
    method Find(k: Key) returns (r: Option<nat>)
      ensures r.Some? ==> r.value < |table| && Holds(table[r.value], k)
      ensures r.None? ==> Absent(table, k)
    {
      if table == [] {
        return None;
      }
      var start := Home(hash, k, |table|);
      var slot: nat := start;
      ghost var n := 0;
      while true
        invariant slot < |table| && n < |table| && Probes(start, slot, |table|) == n
        invariant forall j :: 0 <= j < |table| && Probes(start, j, |table|) < n ==> !Holds(table[j], k)
        decreases |table| - n
      {
        if Holds(table[slot], k) {
          return Some(slot);
        }
        slot := NextSlot(slot, |table|);
        n := n + 1;
        if slot == start {
          return None;
        }
      }
    }

    /** The probe loop of `bc_insert`. */
    method FindForInsert(k: Key) returns (r: Probe)
      requires WellFormed() && table != [] && tick < NO_TICK
      ensures r.slot < |table| && MayStore(table, r.slot, k, hash)
      ensures r.Present? <==> Holds(table[r.slot], k)
      ensures r.Vacant? <==> table[r.slot].Empty?
      ensures r.Oldest? ==> Full(table) && forall j :: 0 <= j < |table| ==> table[r.slot].stamp <= table[j].stamp
    {
      var start := Home(hash, k, |table|);
      var slot: nat := start;
      var lruSlot: nat, lruTick: nat := 0, NO_TICK;
      ghost var n := 0;
      hide Shape, MayStore, Scan, Full;
      ScanStart(table, start, k);
      while true
        invariant slot < |table| && n < |table| && Probes(start, slot, |table|) == n
        invariant Scan(table, start, n, k, lruSlot, lruTick)
        decreases |table| - n
      {
        ScanEnds(table, order, tick, used, hash, slot, n, k, lruSlot, lruTick);
        if table[slot].Empty? {
          return Vacant(slot);
        }
        if table[slot].key == k {
          return Present(slot);
        }
        ScanNext(table, start, slot, n, k, lruSlot, lruTick);
        if table[slot].stamp < lruTick {
          lruSlot, lruTick := slot, table[slot].stamp;
        }
        slot := NextSlot(slot, |table|);
        n := n + 1;
        if slot == start {
          ScanAll(table, order, tick, used, hash, k, lruSlot, lruTick);
          return Oldest(lruSlot);
        }
      }
    }

    /** Where `bc_lookup`, `bc_insert` and `bc_update` all end: slot `i` gets the block and the next tick. An
        eviction empties the slot and fills it again, which leaves `used` as it was. */
    method Store(i: nat, k: Key, d: Block)
      requires i < |table|
      modifies `table, `used, `tick, `order
      ensures table == old(table)[i := Entry(k, d, old(tick) + 1)]
      ensures order == Renewed(old(order), i) && tick == old(tick) + 1
      ensures used == if old(table)[i].Empty? then old(used) + 1 else old(used)
    {
      if table[i].Empty? {
        used := used + 1;
      }
      order := Renewed(order, i);
      tick := tick + 1;
      table := table[i := Entry(k, d, tick)];
    }

    method Lookup(k: Key) returns (r: Option<Block>)
      requires Valid()
      modifies `table, `used, `tick, `order
      ensures Valid() && |table| == |old(table)|
      ensures r.Some? <==> k in old(Lru())
      ensures r.Some? ==> k in disk && r.value == disk[k] && tick == old(tick) + 1
      ensures r.Some? ==> Lru() == Touch(old(Lru()), k, |table|)
      ensures r.None? ==> table == old(table) && order == old(order) && tick == old(tick)
    {
      hide Shape, AgreesBut, MayStore, Full, KeysOf, Touch, Renewed;
      CachedKeys(table, order, tick, used, hash, k);
      var found := Find(k);
      if found.None? {
        return None;
      }
      var data := table[found.value].data;
      HitStored(table, order, tick, used, found.value, k, hash);
      HitAgrees(table, disk, found.value);
      StoreAgrees(table, found.value, k, data, tick, hash, disk);
      StoreKeepsShape(table, order, tick, used, found.value, k, data, hash);
      Store(found.value, k, data);
      return Some(data);
    }

    method Insert(k: Key, d: Block)
      requires WellFormed() && table != [] && tick < NO_TICK
      requires AgreesBut(table, disk, Some(k)) && k in disk && disk[k] == d
      modifies `table, `used, `tick, `order
      ensures Valid() && |table| == |old(table)| && tick == old(tick) + 1
      ensures Lru() == Touch(old(Lru()), k, |table|)
    {
      hide Shape, AgreesBut, MayStore, Full, KeysOf, Touch, Renewed;
      var p := FindForInsert(k);
      if p.Vacant? {
        VacantNotFull(table, p.slot);
      }
      StoreAgrees(table, p.slot, k, d, tick, hash, disk);
      StoreKeepsShape(table, order, tick, used, p.slot, k, d, hash);
      Store(p.slot, k, d);
    }

    method Update(k: Key, d: Block)
      requires WellFormed() && table != [] && tick < NO_TICK
      requires AgreesBut(table, disk, Some(k)) && k in disk && disk[k] == d
      modifies `table, `used, `tick, `order
      ensures Valid() && |table| == |old(table)| && tick == old(tick) + 1
      ensures Lru() == Touch(old(Lru()), k, |table|)
    {
      hide Shape, AgreesBut, MayStore, Full, Absent, KeysOf, Touch, Renewed;
      var found := Find(k);
      if found.None? {
        Insert(k, d);
        return;
      }
      HitStored(table, order, tick, used, found.value, k, hash);
      StoreAgrees(table, found.value, k, d, tick, hash, disk);
      StoreKeepsShape(table, order, tick, used, found.value, k, d, hash);
      Store(found.value, k, d);
    }

    constructor (hash: Key -> nat, disk: map<Key, Block>, target: nat)
      ensures Valid() && table == [] && this.disk == disk && this.hash == hash
    {
      hide Shape, AgreesBut;
      EmptyTable(hash, disk);
      this.hash, this.disk, this.target := hash, disk, target;
      table, used, tick, order := [], 0, 0, [];
    }

    /** `bc_init`: a table of the clamped target size rounded up to a power of two; anything cached in a
        table of another size is dropped. */
    method Init()
      requires Valid()
      modifies `table, `used, `order, `target
      ensures Valid() && tick == old(tick)
      ensures target == if old(table) != [] && |table| == |old(table)| then old(target) else Clamp(old(target))
      ensures PowerOfTwo(|table|) && Clamp(old(target)) <= |table| < 2 * Clamp(old(target))
      ensures old(table) != [] && |table| == |old(table)| ==> table == old(table) && Lru() == old(Lru())
      ensures old(table) == [] || |table| != |old(table)| ==> Lru() == []
    {
      var size := Clamp(target);
      var cap := 1;
      while cap < size
        invariant PowerOfTwo(cap) && cap < 2 * size
        decreases size - cap
      {
        cap := cap * 2;
      }
      if table != [] && |table| == cap {
        return;
      }
      table, used, order, target := seq(cap, _ => Empty), 0, [], size;
      NothingOccupied(cap);
    }

    /** `block_cache_set_capacity` */
    method SetCapacity(entries: nat)
      requires Valid()
      modifies `table, `used, `order, `target
      ensures Valid() && tick == old(tick)
      ensures old(table) != [] && |table| == |old(table)| ==> table == old(table) && Lru() == old(Lru())
      ensures old(table) != [] && |table| != |old(table)| ==> Lru() == []
    {
      var size := Clamp(entries);
      if size == target && table != [] {
        return;
      }
      target := size;
      Init();
    }

    /** `ext2_read_block` on an IDE drive. */
    method ReadBlock(k: Key) returns (data: Block)
      requires Valid() && k in disk && tick < NO_TICK
      modifies `table, `used, `tick, `order, `target
      ensures Valid() && table != [] && tick == old(tick) + 1
      ensures old(table) != [] ==> |table| == |old(table)|
      ensures data == disk[k]
      ensures Lru() == Touch(old(Lru()), k, |table|)
    {
      NoTableNoKeys(table, order, tick, used, hash);
      if table == [] {
        Init();
      }
      var cached := Lookup(k);
      if cached.Some? {
        return cached.value;
      }
      data := disk[k];
      AgreesWeaken(table, disk, k);
      Insert(k, data);
    }

    /** `ext2_write_block` on an IDE drive: write-through, then cache fill. */
    method WriteBlock(k: Key, data: Block)
      requires Valid() && k in disk && tick < NO_TICK
      modifies `table, `used, `tick, `order, `disk
      ensures Valid() && |table| == |old(table)|
      ensures disk == old(disk)[k := data]
      ensures Lru() == if table == [] then old(Lru()) else Touch(old(Lru()), k, |table|)
    {
      hide Shape, KeysOf, Touch;
      AgreesOther(table, disk, k, data);
      disk := disk[k := data];
      if table != [] {
        Update(k, data);
      }
    }

    /** The first loop of `ext2_read_blocks`: serve from the cache until the first miss. */
    method ServeRun(ks: seq<Key>) returns (all: bool, blocks: seq<Block>)
      requires Valid()
      modifies `table, `used, `tick, `order
      ensures Valid() && |table| == |old(table)| && tick <= old(tick) + |ks|
      ensures all <==> Hits(old(Lru()), ks) == |ks|
      ensures all ==> |blocks| == |ks| && Serves(disk, ks, blocks)
      ensures Lru() == TouchAll(old(Lru()), ks[..Hits(old(Lru()), ks)], |table|)
    {
      hide Shape, AgreesBut, KeysOf, Touch, TouchAll, AllIn, Serves, Hits;
      ghost var l := Lru();
      RunStart(l, disk, ks, |table|);
      blocks := [];
      var i := 0;
      while i < |ks|
        invariant Valid() && |table| == |old(table)| && tick <= old(tick) + i
        invariant 0 <= i <= |ks| && |blocks| == i && Serves(disk, ks, blocks)
        invariant AllIn(l, ks[..i]) && Lru() == TouchAll(l, ks[..i], |table|)
      {
        TouchHits(l, ks[..i], |table|, ks[i]);
        HitsSnoc(l, ks, i);
        TouchSnoc(l, ks, i, |table|);
        var cached := Lookup(ks[i]);
        if cached.None? {
          return false, [];
        }
        ServesSnoc(disk, ks, blocks, cached.value);
        blocks := blocks + [cached.value];
        i := i + 1;
      }
      HitsAtMiss(l, ks, |ks|);
      return true, blocks;
    }

    /** The last loop of `ext2_read_blocks`: insert every block that was read. */
    method FillRun(ks: seq<Key>, blocks: seq<Block>)
      requires Valid() && table != [] && tick + |ks| < NO_TICK
      requires |blocks| == |ks| && Serves(disk, ks, blocks)
      modifies `table, `used, `tick, `order
      ensures Valid() && |table| == |old(table)| && tick == old(tick) + |ks|
      ensures Lru() == TouchAll(old(Lru()), ks, |table|)
    {
      ghost var l := Lru();
      var i := 0;
      while i < |ks|
        invariant Valid() && |table| == |old(table)| && tick == old(tick) + i
        invariant 0 <= i <= |ks| && Lru() == TouchAll(l, ks[..i], |table|)
      {
        TouchSnoc(l, ks, i, |table|);
        AgreesWeaken(table, disk, ks[i]);
        Insert(ks[i], blocks[i]);
        i := i + 1;
      }
      assert ks[..i] == ks;
    }

    /** `ext2_read_blocks` on an IDE drive: a run is served from the cache or read from the disk as a whole. */
    method ReadBlocks(drive: nat, start: nat, count: nat) returns (blocks: seq<Block>)
      requires Valid() && tick + 2 * count < NO_TICK
      requires OnDisk(disk, Run(drive, start, count))
      modifies `table, `used, `tick, `order, `target
      ensures Valid() && tick <= old(tick) + 2 * count
      ensures old(table) != [] ==> |table| == |old(table)|
      ensures |blocks| == count && Serves(disk, Run(drive, start, count), blocks)
      ensures Lru() == AfterRun(old(Lru()), Run(drive, start, count), |table|)
    {
      hide Shape, AgreesBut, Serves, AfterRun, Touch, TouchAll, Hits, PowerOfTwo;
      var ks := Run(drive, start, count);
      RunCases(old(Lru()), disk, ks, |table|);
      if count == 0 {
        return [];
      }
      if count == 1 {
        assert ks[0] in disk;
        var one := ReadBlock(ks[0]);
        RunCases(old(Lru()), disk, ks, |table|);
        ServesSnoc(disk, ks, [], one);
        assert [] + [one] == [one];
        return [one];
      }
      NoTableNoKeys(table, order, tick, used, hash);
      if table == [] {
        Init();
      }
      var all;
      all, blocks := ServeRun(ks);
      if all {
        RunCases(old(Lru()), disk, ks, |table|);
        return blocks;
      }
      RunCases(old(Lru()), disk, ks, |table|);
      blocks := FromDisk(disk, ks);
      if count <= |table| {
        FillRun(ks, blocks);
      }
    }
  }

  /** The keys of a run of blocks. */
  function Run(drive: nat, start: nat, n: nat): (r: seq<Key>)
    ensures |r| == n
    ensures forall i :: 0 <= i < n ==> r[i] == Key(drive, start + i)
  {
    seq(n, i requires 0 <= i < n => Key(drive, start + i))
  }

  predicate OnDisk(disk: map<Key, Block>, ks: seq<Key>) {
    forall i :: 0 <= i < |ks| ==> ks[i] in disk
  }

  ghost predicate Serves(disk: map<Key, Block>, ks: seq<Key>, blocks: seq<Block>) {
    |blocks| <= |ks| && forall i :: 0 <= i < |blocks| ==> ks[i] in disk && blocks[i] == disk[ks[i]]
  }

  function FromDisk(disk: map<Key, Block>, ks: seq<Key>): (r: seq<Block>)
    requires OnDisk(disk, ks)
    ensures |r| == |ks| && Serves(disk, ks, r)
  {
    seq(|ks|, i requires 0 <= i < |ks| => disk[ks[i]])
  }

  lemma {:induction false} RunStart(l: seq<Key>, disk: map<Key, Block>, ks: seq<Key>, cap: nat)
    ensures Serves(disk, ks, []) && AllIn(l, ks[..0]) && TouchAll(l, ks[..0], cap) == l
  {
  }

  lemma {:induction false} ServesSnoc(disk: map<Key, Block>, ks: seq<Key>, blocks: seq<Block>, b: Block)
    requires Serves(disk, ks, blocks) && |blocks| < |ks|
    requires ks[|blocks|] in disk && b == disk[ks[|blocks|]]
    ensures Serves(disk, ks, blocks + [b])
  {
  }

  ghost function TouchAll(l: seq<Key>, ks: seq<Key>, cap: nat): seq<Key> {
    if ks == [] then l else Touch(TouchAll(l, ks[..|ks| - 1], cap), ks[|ks| - 1], cap)
  }

  lemma {:induction false} TouchSnoc(l: seq<Key>, ks: seq<Key>, i: nat, cap: nat)
    requires i < |ks|
    ensures TouchAll(l, ks[..i + 1], cap) == Touch(TouchAll(l, ks[..i], cap), ks[i], cap)
  {
    assert ks[..i + 1][..i] == ks[..i];
  }

  ghost predicate AllIn(l: seq<Key>, ks: seq<Key>) {
    forall i :: 0 <= i < |ks| ==> ks[i] in l
  }

  /** Touching puts the key first and keeps the order of the others; a key that is new to a full list drives out the last. */
  lemma {:induction false} TouchIs(l: seq<Key>, k: Key, cap: nat)
    ensures forall i: nat :: i < |l| && l[i] == k && (forall j :: 0 <= j < i ==> l[j] != k) ==> Touch(l, k, cap) == [k] + l[..i] + l[i + 1..]
    ensures k !in l && |l| < cap ==> Touch(l, k, cap) == [k] + l
    ensures k !in l && |l| >= cap && l != [] ==> Touch(l, k, cap) == [k] + l[..|l| - 1]
  {
    forall i: nat | i < |l| && l[i] == k && forall j :: 0 <= j < i ==> l[j] != k ensures Touch(l, k, cap) == [k] + l[..i] + l[i + 1..] {
      WithoutAt(l, i);
      assert [k] + (l[..i] + l[i + 1..]) == [k] + l[..i] + l[i + 1..];
    }
  }

  /** After touching a run of different keys, they come first, the last one touched in front. */
  lemma {:induction false} TouchedFirst(l: seq<Key>, ks: seq<Key>, cap: nat)
    requires Distinct(ks) && |ks| <= cap
    ensures var r := TouchAll(l, ks, cap); |ks| <= |r| && forall i :: 0 <= i < |ks| ==> r[i] == ks[|ks| - 1 - i]
  {
    if ks != [] {
      var init, k := ks[..|ks| - 1], ks[|ks| - 1];
      TouchedFirst(l, init, cap);
      hide Touch, TouchAll;
      TouchSnoc(l, ks, |init|, cap);
      assert ks[..|init| + 1] == ks;
      var before, r := TouchAll(l, init, cap), TouchAll(l, ks, cap);
      assert forall i :: 0 <= i < |init| ==> before[i] == ks[|init| - 1 - i];
      TouchKeeps(before, k, cap, |init|);
      assert forall i :: 0 < i < |ks| ==> r[i] == before[i - 1];
    }
  }

  lemma {:induction false} TouchKeeps(l: seq<Key>, k: Key, cap: nat, n: nat)
    requires n <= |l| && n < cap && forall i :: 0 <= i < n ==> l[i] != k
    ensures |Touch(l, k, cap)| > n && Touch(l, k, cap)[0] == k && forall i :: 0 <= i < n ==> Touch(l, k, cap)[i + 1] == l[i]
  {
    if k in l {
      var p := First(l, k);
      WithoutAt(l, p);
    }
  }

  lemma {:induction false} First(l: seq<Key>, k: Key) returns (p: nat)
    requires k in l
    ensures p < |l| && l[p] == k && forall q :: 0 <= q < p ==> l[q] != k
  {
    p := 0;
    while l[p] != k
      invariant p < |l| && k in l[p..] && forall q :: 0 <= q < p ==> l[q] != k
      decreases |l| - p
    {
      p := p + 1;
    }
  }

  /** How many leading keys of `ks` are in `l`. */
  ghost function Hits(l: seq<Key>, ks: seq<Key>): (n: nat)
    ensures n <= |ks| && AllIn(l, ks[..n]) && (n < |ks| ==> ks[n] !in l)
  {
    if ks == [] || ks[0] !in l then 0 else 1 + Hits(l, ks[1..])
  }

  /** The recency list after a multi-block read: the hits before the first miss are touched, and after a miss
      the whole run is, unless it is longer than the table. */
  ghost function AfterRun(l: seq<Key>, ks: seq<Key>, cap: nat): seq<Key> {
    var n := Hits(l, ks);
    var served := TouchAll(l, ks[..n], cap);
    if n == |ks| || |ks| > cap then served else TouchAll(served, ks, cap)
  }

  /** After a multi-block read of at most as many blocks as the table has slots, the run comes first, its last block in front;
      after a longer one that missed, the keys are the same as before. */
  lemma {:induction false} AfterRunIs(l: seq<Key>, ks: seq<Key>, cap: nat)
    requires Distinct(ks)
    ensures |ks| <= cap ==>
              var r := AfterRun(l, ks, cap); |ks| <= |r| && forall i :: 0 <= i < |ks| ==> r[i] == ks[|ks| - 1 - i]
    ensures |ks| > cap ==> forall k :: k in AfterRun(l, ks, cap) <==> k in l
  {
    var n := Hits(l, ks);
    if |ks| <= cap {
      assert ks[..|ks|] == ks;
      TouchedFirst(if n == |ks| then l else TouchAll(l, ks[..n], cap), ks, cap);
    } else {
      forall k ensures k in AfterRun(l, ks, cap) <==> k in l { TouchHits(l, ks[..n], cap, k); }
    }
  }

  lemma {:induction false} RunCases(l: seq<Key>, disk: map<Key, Block>, ks: seq<Key>, cap: nat)
    ensures Serves(disk, ks, [])
    ensures ks == [] ==> AfterRun(l, ks, cap) == l
    ensures |ks| == 1 && cap > 0 ==> AfterRun(l, ks, cap) == Touch(l, ks[0], cap)
    ensures var n := Hits(l, ks);
            AfterRun(l, ks, cap) == if n == |ks| || |ks| > cap then TouchAll(l, ks[..n], cap)
                                    else TouchAll(TouchAll(l, ks[..n], cap), ks, cap)
  {
    if |ks| == 1 {
      TouchSnoc(l, ks, 0, cap);
      assert ks[..1] == ks && TouchAll(l, ks[..0], cap) == l;
    }
  }

  lemma {:induction false} HitsSnoc(l: seq<Key>, ks: seq<Key>, i: nat)
    requires i < |ks| && AllIn(l, ks[..i])
    ensures ks[i] in l ==> AllIn(l, ks[..i + 1])
    ensures ks[i] !in l ==> Hits(l, ks) == i
  {
    if ks[i] in l {
      assert ks[..i + 1] == ks[..i] + [ks[i]];
    } else {
      HitsAtMiss(l, ks, i);
    }
  }

  lemma {:induction false} HitsAtMiss(l: seq<Key>, ks: seq<Key>, i: nat)
    requires i <= |ks| && AllIn(l, ks[..i]) && (i < |ks| ==> ks[i] !in l)
    ensures Hits(l, ks) == i
  {
    if i > 0 {
      assert ks[..i][0] == ks[0];
      assert ks[1..][..i - 1] == ks[..i][1..];
      HitsAtMiss(l, ks[1..], i - 1);
    }
  }

  lemma {:induction false} WithoutMembers<T>(s: seq<T>, x: T, y: T)
    ensures y in Without(s, x) ==> y in s
    ensures y in s && y != x ==> y in Without(s, x)
  {
    if s != [] && s[0] != x {
      WithoutMembers(s[1..], x, y);
    }
  }

  /** Hits do not change which keys are listed. */
  lemma {:induction false} TouchHits(l: seq<Key>, ks: seq<Key>, cap: nat, x: Key)
    requires AllIn(l, ks)
    ensures x in TouchAll(l, ks, cap) <==> x in l
    decreases |ks|
  {
    if ks != [] {
      var front, k := ks[..|ks| - 1], ks[|ks| - 1];
      TouchHits(l, front, cap, x);
      TouchHits(l, front, cap, k);
      WithoutMembers(TouchAll(l, front, cap), k, x);
    }
  }

  function Clamp(n: nat): nat {
    if n < MIN_ENTRIES then MIN_ENTRIES else if n > MAX_ENTRIES then MAX_ENTRIES else n
  }

  /** The table has between 16 and 16384 entries, and as many as asked for in between. */
  lemma {:induction false} ClampIs(n: nat)
    ensures 16 <= Clamp(n) <= 16384 && (16 <= n <= 16384 ==> Clamp(n) == n)
    ensures (n < 16 ==> Clamp(n) == 16) && (n > 16384 ==> Clamp(n) == 16384)
  {
  }

  predicate PowerOfTwo(n: nat) {
    n == 1 || (n > 1 && n % 2 == 0 && PowerOfTwo(n / 2))
  }

  lemma {:induction false} NothingOccupied(n: nat)
    ensures Occupied(seq(n, _ => Empty)) == 0
  {
    if n > 0 {
      assert seq(n, _ => Empty)[1..] == seq(n - 1, _ => Empty);
      NothingOccupied(n - 1);
    }
  }

  lemma {:induction false} EmptyTable(hash: Key -> nat, disk: map<Key, Block>)
    ensures Shape([], [], 0, 0, hash) && AgreesBut([], disk, None)
  {
  }

  lemma {:induction false} NoTableNoKeys(t: seq<Slot>, order: seq<nat>, tick: nat, used: nat, hash: Key -> nat)
    requires Shape(t, order, tick, used, hash)
    ensures t == [] ==> order == []
  {
  }

  lemma {:induction false} AgreesWeaken(t: seq<Slot>, disk: map<Key, Block>, k: Key)
    requires AgreesBut(t, disk, None)
    ensures AgreesBut(t, disk, Some(k))
  {
  }

  lemma {:induction false} AgreesOther(t: seq<Slot>, disk: map<Key, Block>, k: Key, d: Block)
    requires AgreesBut(t, disk, None)
    ensures AgreesBut(t, disk[k := d], Some(k))
  {
  }

  lemma {:induction false} VacantNotFull(t: seq<Slot>, i: nat)
    requires i < |t| && t[i].Empty?
    ensures !Full(t)
  {
  }

  lemma {:induction false} HitStored(t: seq<Slot>, order: seq<nat>, tick: nat, used: nat, i: nat, k: Key, hash: Key -> nat)
    requires Shape(t, order, tick, used, hash) && i < |t| && Holds(t[i], k)
    ensures MayStore(t, i, k, hash)
  {
  }

  lemma {:induction false} HitAgrees(t: seq<Slot>, disk: map<Key, Block>, i: nat)
    requires AgreesBut(t, disk, None) && i < |t| && t[i].Entry?
    ensures t[i].key in disk && t[i].data == disk[t[i].key] && AgreesBut(t, disk, Some(t[i].key))
  {
  }

  lemma {:induction false} CachedKeys(t: seq<Slot>, order: seq<nat>, tick: nat, used: nat, hash: Key -> nat, k: Key)
    requires Shape(t, order, tick, used, hash)
    ensures k in KeysOf(t, order) <==> !Absent(t, k)
  {
    if Absent(t, k) {
      AbsentKey(t, order, tick, k);
    } else {
      var i :| 0 <= i < |t| && Holds(t[i], k);
      assert i in order;
      var p :| 0 <= p < |order| && order[p] == i;
      assert KeysOf(t, order)[p] == k;
    }
  }

  /** The first `n` probed slots are occupied by other keys; `lruSlot` has the least stamp among them. */
  ghost predicate Scan(t: seq<Slot>, start: nat, n: nat, k: Key, lruSlot: nat, lruTick: nat) {
    && (forall j :: 0 <= j < |t| && Probes(start, j, |t|) < n ==> t[j].Entry? && t[j].key != k && lruTick <= t[j].stamp)
    && (lruTick < NO_TICK ==> lruSlot < |t| && t[lruSlot].Entry? && t[lruSlot].stamp == lruTick)
  }

  lemma {:induction false} ScanStart(t: seq<Slot>, start: nat, k: Key)
    requires start < |t|
    ensures Scan(t, start, 0, k, 0, NO_TICK)
  {
  }

  lemma {:induction false} ScanNext(t: seq<Slot>, start: nat, slot: nat, n: nat, k: Key, lruSlot: nat, lruTick: nat)
    requires start < |t| && slot < |t| && Probes(start, slot, |t|) == n < |t|
    requires Scan(t, start, n, k, lruSlot, lruTick) && t[slot].Entry? && t[slot].key != k
    ensures t[slot].stamp < lruTick && t[slot].stamp < NO_TICK ==> Scan(t, start, n + 1, k, slot, t[slot].stamp)
    ensures t[slot].stamp >= lruTick ==> Scan(t, start, n + 1, k, lruSlot, lruTick)
    ensures NextSlot(slot, |t|) == start ==> n + 1 == |t|
    ensures NextSlot(slot, |t|) != start ==> n + 1 < |t| && Probes(start, NextSlot(slot, |t|), |t|) == n + 1
  {
  }

  lemma {:induction false} ScanEnds(t: seq<Slot>, order: seq<nat>, tick: nat, used: nat, hash: Key -> nat,
                 slot: nat, n: nat, k: Key, lruSlot: nat, lruTick: nat)
    requires Shape(t, order, tick, used, hash) && slot < |t|
    requires var start := Home(hash, k, |t|);
             Probes(start, slot, |t|) == n < |t| && Scan(t, start, n, k, lruSlot, lruTick)
    ensures t[slot].Entry? ==> t[slot].stamp <= tick
    ensures t[slot].Empty? || Holds(t[slot], k) ==> MayStore(t, slot, k, hash)
    ensures t[slot].Empty? ==> !Full(t)
  {
    if t[slot].Empty? {
      PresentOnPath(t, hash, k, slot);
    }
  }

  lemma {:induction false} ScanAll(t: seq<Slot>, order: seq<nat>, tick: nat, used: nat, hash: Key -> nat, k: Key, lruSlot: nat, lruTick: nat)
    requires Shape(t, order, tick, used, hash) && t != [] && tick < NO_TICK
    requires Scan(t, Home(hash, k, |t|), |t|, k, lruSlot, lruTick)
    ensures Full(t) && MayStore(t, lruSlot, k, hash) && !Holds(t[lruSlot], k)
    ensures forall j :: 0 <= j < |t| ==> t[lruSlot].stamp <= t[j].stamp
  {
    forall j | 0 <= j < |t| ensures t[j].Entry? && t[j].key != k && lruTick <= t[j].stamp {
      assert Probes(Home(hash, k, |t|), j, |t|) < |t|;
    }
    assert t[0].stamp <= tick;
  }

  /** When the probe path of `k` meets an empty slot before `k`, the key is nowhere in the table. */
  lemma {:induction false} PresentOnPath(t: seq<Slot>, hash: Key -> nat, k: Key, i: nat)
    requires NoGap(t, hash) && i < |t| && t[i].Empty?
    requires forall j :: 0 <= j < |t| && Probes(Home(hash, k, |t|), j, |t|) < Probes(Home(hash, k, |t|), i, |t|) ==> !Holds(t[j], k)
    ensures Absent(t, k)
  {
  }
}
