/** The pointer tree of a file: twelve direct pointers and three trees of depth one, two and three, whose nodes
    are disk blocks full of 32-bit block numbers. */
module BlockTree {
  import opened Bytes
  import opened Bitmaps

  const DIRECT: nat := 12
  const POINTERS: nat := 15

  /** A place for a block number: a pointer of the inode, or an entry of the table found at another place. */
  datatype Pos = Root(k: nat) | Entry(table: Pos, i: nat)

  /** How many tables lie between the place and data: 0 where data blocks are. */
  function Level(p: Pos): int {
    match p
    case Root(k) => if k < DIRECT then 0 else k - DIRECT + 1
    case Entry(t, _) => Level(t) - 1
  }

  /** The places of a tree whose tables have `n` entries. */
  predicate Place(p: Pos, n: nat) {
    match p
    case Root(k) => k < POINTERS
    case Entry(t, i) => Place(t, n) && Level(t) > 0 && i < n
  }

  function Word(disk: Disk, b: nat, i: nat): nat {
    if b in disk then U32(disk[b], 4 * i) else 0
  }

  /** The block number at a place; 0 where the way there ends. */
  function At(disk: Disk, ptr: seq<nat>, p: Pos): nat {
    match p
    case Root(k) => if k < |ptr| then ptr[k] else 0
    case Entry(t, i) => var b := At(disk, ptr, t); if b == 0 then 0 else Word(disk, b, i)
  }

  function Sq(n: nat): nat {
    n * n
  }

  function Cube(n: nat): nat {
    n * n * n
  }

  /** A number in base `n`, from the digits before the last and the last. */
  function Mix(q: nat, n: nat, e: nat): nat {
    q * n + e
  }

  /** The place of logical block `l`. */
  function PosOf(n: nat, l: nat): Pos {
    var x, y, z := l - DIRECT, l - DIRECT - n, l - DIRECT - n - Sq(n);
    if l < DIRECT then Root(l)
    else if x < n then Entry(Root(12), x)
    else if y < Sq(n) then Entry(Entry(Root(13), Quo(y, n)), Rem(y, n))
    else if z < Cube(n) then Entry(Entry(Entry(Root(14), Quo(z, Sq(n))), Rem(Quo(z, n), n)), Rem(z, n))
    else Root(POINTERS)
  }

  function Capacity(n: nat): nat {
    DIRECT + n + Sq(n) + Cube(n)
  }

  lemma {:induction false} DivBelow(y: nat, n: nat, m: nat)
    requires n > 0 && y < m * n
    ensures Quo(y, n) < m
  {
    QuoRem(y, n);
    if Quo(y, n) >= m { MulMono(m, Quo(y, n), n); }
  }

  lemma {:induction false} TwoDigits(y: nat, n: nat)
    requires n > 0
    ensures Rem(y, n) < n && y == Mix(Quo(y, n), n, Rem(y, n)) && (y < Sq(n) ==> Quo(y, n) < n)
  {
    QuoRem(y, n);
    if y < Sq(n) { DivBelow(y, n, n); }
  }

  lemma {:induction false} Deep(k: nat, a: nat, b: nat, c: nat, n: nat)
    requires k < POINTERS
    ensures Place(Root(k), n) && Level(Root(k)) == if k < DIRECT then 0 else k - DIRECT + 1
    ensures Place(Entry(Root(k), a), n) == (k >= DIRECT && a < n)
    ensures Level(Entry(Root(k), a)) == Level(Root(k)) - 1
    ensures Place(Entry(Entry(Root(k), a), b), n) == (k > DIRECT && a < n && b < n)
    ensures Level(Entry(Entry(Root(k), a), b)) == Level(Root(k)) - 2
    ensures Place(Entry(Entry(Entry(Root(k), a), b), c), n) == (k > DIRECT + 1 && a < n && b < n && c < n)
    ensures Level(Entry(Entry(Entry(Root(k), a), b), c)) == Level(Root(k)) - 3
  {
  }

  /** Logical blocks in range have a data place. */
  lemma {:induction false} PosOfPlace(n: nat, l: nat)
    requires n > 0 && l < Capacity(n)
    ensures Place(PosOf(n, l), n) && Level(PosOf(n, l)) == 0
  {
    hide Sq, Cube, Place, Level, Quo, Rem, Mix;
    var x, y, z := l - DIRECT, l - DIRECT - n, l - DIRECT - n - Sq(n);
    if l < DIRECT {
      Deep(l, 0, 0, 0, n);
    } else if x < n {
      Deep(12, x, 0, 0, n);
    } else if y < Sq(n) {
      TwoDigits(y, n);
      Deep(13, Quo(y, n), Rem(y, n), 0, n);
    } else {
      ThreeDigits(z, n);
      Deep(14, Quo(z, Sq(n)), Rem(Quo(z, n), n), Rem(z, n), n);
    }
  }

  /** Three base-`n` digits of a number. */
  lemma {:induction false} ThreeDigits(z: nat, n: nat)
    requires n > 0
    ensures Rem(z, n) < n && Rem(Quo(z, n), n) < n
    ensures z == Mix(Mix(Quo(z, Sq(n)), n, Rem(Quo(z, n), n)), n, Rem(z, n))
    ensures z < Cube(n) ==> Quo(z, Sq(n)) < n
  {
    hide Sq, Cube, Quo, Rem, Mix;
    TwoDigits(z, n);
    TwoDigits(Quo(z, n), n);
    Combine(z, Quo(z, n), Quo(Quo(z, n), n), Rem(Quo(z, n), n), Rem(z, n), n);
    if z < Cube(n) { CubeBelow(z, n); }
  }

  lemma {:induction false} CubeBelow(z: nat, n: nat)
    requires n > 0 && z < Cube(n)
    ensures Quo(z, Sq(n)) < n
  {
    assert Cube(n) == n * Sq(n);
    MulMono(1, n, n);
    DivBelow(z, Sq(n), n);
  }

  lemma {:induction false} Combine(z: nat, y: nat, q: nat, d: nat, e: nat, n: nat)
    requires n > 0 && z == Mix(y, n, e) && y == Mix(q, n, d) && d < n && e < n
    ensures Quo(z, Sq(n)) == q
  {
    MulMono(1, n, n);
    DigitBound(q, d, e, n);
    QuoUnique(z, q, Sq(n));
  }

  lemma {:induction false} DigitBound(q: nat, d: nat, e: nat, n: nat)
    requires d < n && e < n
    ensures q * Sq(n) <= (q * n + d) * n + e < q * Sq(n) + Sq(n)
  {
    assert (q * n + d) * n == q * n * n + d * n;
    assert q * n * n == q * (n * n);
    MulMono(d, n - 1, n);
    assert (n - 1) * n + n == n * n;
  }

  /** The place of a block behind two tables. */
  lemma {:induction false} PosDouble(n: nat, l: nat, j: nat, i: nat)
    requires j < n && i < n && l == 12 + n + j * n + i
    ensures PosOf(n, l) == Entry(Entry(Root(13), j), i)
  {
    var y := j * n + i;
    TwoOf(j, i, n);
    hide Quo, Rem;
  }

  lemma {:induction false} TwoOf(j: nat, i: nat, n: nat)
    requires j < n && i < n
    ensures Quo(j * n + i, n) == j && Rem(j * n + i, n) == i && j * n + i < Sq(n)
  {
    QuoUnique(j * n + i, j, n);
    QuoRem(j * n + i, n);
    MulMono(j + 1, n, n);
    assert (j + 1) * n == j * n + n;
  }

  /** The place of a block behind three tables. */
  lemma {:induction false} PosTriple(n: nat, l: nat, k: nat, j: nat, i: nat)
    requires k < n && j < n && i < n && l == 12 + n + n * n + (k * n + j) * n + i
    ensures PosOf(n, l) == Entry(Entry(Entry(Root(14), k), j), i)
  {
    var q, z := k * n + j, (k * n + j) * n + i;
    hide Quo, Rem, Cube;
    TwoOf(k, j, n);
    LastOf(q, i, n);
    Combine(z, q, k, j, i, n);
    BelowCube(k, j, i, n);
    assert Sq(n) == n * n;
  }

  lemma {:induction false} LastOf(q: nat, i: nat, n: nat)
    requires i < n
    ensures Quo(q * n + i, n) == q && Rem(q * n + i, n) == i
  {
    QuoUnique(q * n + i, q, n);
    QuoRem(q * n + i, n);
  }

  lemma {:induction false} BelowCube(k: nat, j: nat, i: nat, n: nat)
    requires k < n && j < n && i < n
    ensures (k * n + j) * n + i < Cube(n)
  {
    DigitBound(k, j, i, n);
    MulMono(k + 1, n, Sq(n));
    assert (k + 1) * Sq(n) == k * Sq(n) + Sq(n) && n * Sq(n) == Cube(n);
  }

  /** Different logical blocks have different places. */
  lemma {:induction false} PosOfUnique(n: nat, l: nat, m: nat)
    requires n > 0 && l < Capacity(n) && m < Capacity(n) && PosOf(n, l) == PosOf(n, m)
    ensures l == m
  {
    hide Sq, Cube;
    Digits(l, n);
    Digits(m, n);
  }

  /** A logical block is read off its place. */
  lemma {:induction false} Digits(l: nat, n: nat)
    requires n > 0 && l < Capacity(n)
    ensures l == LogicalOf(n, PosOf(n, l))
  {
    hide Sq, Cube, Quo, Rem, Mix;
    var y, z := l - DIRECT - n, l - DIRECT - n - Sq(n);
    if y >= 0 { TwoDigits(y, n); }
    if z >= 0 { ThreeDigits(z, n); }
  }

  /** The logical block of a data place. */
  function LogicalOf(n: nat, p: Pos): nat {
    match p
    case Root(k) => k
    case Entry(Root(_), i) => DIRECT + i
    case Entry(Entry(Root(_), j), i) => DIRECT + n + Mix(j, n, i)
    case Entry(Entry(Entry(_, k), j), i) => DIRECT + n + Sq(n) + Mix(Mix(k, n, j), n, i)
  }

  /** The blocks of a tree are on the disk, in `own`, and no block is used twice. */
  ghost predicate TreeOk(disk: Disk, ptr: seq<nat>, n: nat, own: set<nat>) {
    && |ptr| == POINTERS && (forall k :: 0 <= k < POINTERS ==> ptr[k] < 0x1_0000_0000)
    && own <= disk.Keys && (forall b :: b in own ==> |disk[b]| == 4 * n)
    && (forall p :: Place(p, n) && At(disk, ptr, p) != 0 ==> At(disk, ptr, p) in own)
    && (forall p, q :: Place(p, n) && Place(q, n) && p != q && At(disk, ptr, p) != 0 ==> At(disk, ptr, p) != At(disk, ptr, q))
  }

  /** A disk that agrees on the tables of the tree holds the same tree. */
  lemma {:induction false} SameAt(disk: Disk, disk': Disk, ptr: seq<nat>, n: nat, own: set<nat>, p: Pos)
    requires TreeOk(disk, ptr, n, own) && Place(p, n)
    requires forall b :: b in own ==> b in disk' && disk'[b] == disk[b]
    ensures At(disk', ptr, p) == At(disk, ptr, p)
  {
    if p.Entry? { SameAt(disk, disk', ptr, n, own, p.table); }
  }

  lemma {:induction false} SameTree(disk: Disk, disk': Disk, ptr: seq<nat>, n: nat, own: set<nat>, own': set<nat>)
    requires TreeOk(disk, ptr, n, own) && own <= own' <= disk'.Keys && forall b :: b in own' ==> |disk'[b]| == 4 * n
    requires forall b :: b in own ==> b in disk' && disk'[b] == disk[b]
    ensures TreeOk(disk', ptr, n, own') && forall p :: Place(p, n) ==> At(disk', ptr, p) == At(disk, ptr, p)
  {
    forall p | Place(p, n) ensures At(disk', ptr, p) == At(disk, ptr, p) { SameAt(disk, disk', ptr, n, own, p); }
    hide At, Place;
  }

  ghost predicate Blank(disk: Disk, b: nat) {
    forall i: nat :: Word(disk, b, i) == 0
  }

  /** The place `c` was empty or holds data, and `v` can go there: a fresh block, blank if it is to be a table. */
  ghost predicate CanPut(disk: Disk, ptr: seq<nat>, n: nat, own: set<nat>, c: Pos, v: nat) {
    && v != 0 && v < 0x1_0000_0000 && v in own && (forall p :: Place(p, n) ==> At(disk, ptr, p) != v)
    && (Level(c) > 0 ==> At(disk, ptr, c) == 0 && Blank(disk, v))
  }

  /** The tree with block `v` at place `c`. */
  ghost predicate IsPut(disk: Disk, ptr: seq<nat>, disk': Disk, ptr': seq<nat>, n: nat, c: Pos, v: nat) {
    forall p :: Place(p, n) ==> At(disk', ptr', p) == if p == c then v else At(disk, ptr, p)
  }

  lemma {:induction false} PutTreeOk(disk: Disk, ptr: seq<nat>, disk': Disk, ptr': seq<nat>, n: nat, own: set<nat>, c: Pos, v: nat)
    requires TreeOk(disk, ptr, n, own) && CanPut(disk, ptr, n, own, c, v) && IsPut(disk, ptr, disk', ptr', n, c, v)
    requires |ptr'| == POINTERS && (forall k :: 0 <= k < POINTERS ==> ptr'[k] < 0x1_0000_0000)
    requires own <= disk'.Keys && forall b :: b in own ==> |disk'[b]| == 4 * n
    ensures TreeOk(disk', ptr', n, own)
  {
    hide At, Place;
  }

  // ---- an entry of a table is written

  ghost function WithEntry(disk: Disk, b: nat, i: nat, v: nat): Disk
    requires b in disk && 4 * i + 4 <= |disk[b]|
  {
    disk[b := PutU32(disk[b], 4 * i, v)]
  }

  lemma {:induction false} WordOfWith(disk: Disk, b: nat, i: nat, v: nat, c: nat, j: nat)
    requires b in disk && 4 * i + 4 <= |disk[b]| && v < 0x1_0000_0000
    ensures Word(WithEntry(disk, b, i, v), c, j) == if c == b && j == i then v else Word(disk, c, j)
  {
    U32OfPut(disk[b], 4 * i, v, 4 * j);
  }

  lemma {:induction false} EntryAt(disk: Disk, ptr: seq<nat>, n: nat, own: set<nat>, t: Pos, i: nat, v: nat, p: Pos)
    requires TreeOk(disk, ptr, n, own) && Place(Entry(t, i), n) && At(disk, ptr, t) != 0
    requires CanPut(disk, ptr, n, own, Entry(t, i), v) && Place(p, n)
    ensures var b := At(disk, ptr, t); b in disk && 4 * i + 4 <= |disk[b]|
    ensures var b := At(disk, ptr, t); At(WithEntry(disk, b, i, v), ptr, p) == if p == Entry(t, i) then v else At(disk, ptr, p)
    decreases p
  {
    var b := At(disk, ptr, t);
    if p.Entry? {
      EntryAt(disk, ptr, n, own, t, i, v, p.table);
      WordOfWith(disk, b, i, v, At(disk, ptr, p.table), p.i);
      WordOfWith(disk, b, i, v, v, p.i);
    }
  }

  /** Writing entry `i` of the table at `t` changes the place of that entry, and no other place. */
  lemma {:induction false} PutEntry(disk: Disk, ptr: seq<nat>, n: nat, own: set<nat>, t: Pos, i: nat, v: nat)
    requires TreeOk(disk, ptr, n, own) && Place(Entry(t, i), n) && At(disk, ptr, t) != 0 && CanPut(disk, ptr, n, own, Entry(t, i), v)
    ensures var b := At(disk, ptr, t);
            && b in own && b in disk && 4 * i + 4 <= |disk[b]|
            && IsPut(disk, ptr, WithEntry(disk, b, i, v), ptr, n, Entry(t, i), v)
            && TreeOk(WithEntry(disk, b, i, v), ptr, n, own)
  {
    var b := At(disk, ptr, t);
    forall p | Place(p, n)
      ensures b in disk && 4 * i + 4 <= |disk[b]|
      ensures At(WithEntry(disk, b, i, v), ptr, p) == if p == Entry(t, i) then v else At(disk, ptr, p)
    {
      EntryAt(disk, ptr, n, own, t, i, v, p);
    }
    assert Place(t, n);
    PutTreeOk(disk, ptr, WithEntry(disk, b, i, v), ptr, n, own, Entry(t, i), v);
  }

  // ---- a pointer of the inode is written

  lemma {:induction false} RootAt(disk: Disk, ptr: seq<nat>, n: nat, own: set<nat>, k: nat, v: nat, p: Pos)
    requires TreeOk(disk, ptr, n, own) && k < POINTERS && CanPut(disk, ptr, n, own, Root(k), v) && Place(p, n)
    ensures At(disk, ptr[k := v], p) == if p == Root(k) then v else At(disk, ptr, p)
    decreases p
  {
    if p.Entry? {
      RootAt(disk, ptr, n, own, k, v, p.table);
      assert Word(disk, v, p.i) == 0 || Level(Root(k)) == 0;
    }
  }

  lemma {:induction false} PutRoot(disk: Disk, ptr: seq<nat>, n: nat, own: set<nat>, k: nat, v: nat)
    requires TreeOk(disk, ptr, n, own) && k < POINTERS && CanPut(disk, ptr, n, own, Root(k), v)
    ensures IsPut(disk, ptr, disk, ptr[k := v], n, Root(k), v) && TreeOk(disk, ptr[k := v], n, own)
  {
    forall p | Place(p, n) ensures At(disk, ptr[k := v], p) == if p == Root(k) then v else At(disk, ptr, p) {
      RootAt(disk, ptr, n, own, k, v, p);
    }
    PutTreeOk(disk, ptr, disk, ptr[k := v], n, own, Root(k), v);
  }
}
