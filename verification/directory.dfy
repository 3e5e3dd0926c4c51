/** Directory blocks: `ext2_find_child` and `ext2_add_dir_entry` of src/kernel/kern_ext2.c. A block is a chain of
    records: a 4-byte inode number, a 2-byte record length, a 1-byte name length, a 1-byte type, and the name. */
module Directory {
  import opened Bytes
  import opened Options

  type Block = seq<byte>

  const HEADER: nat := 8
  const MAX_NAME: nat := 250

  /** A live entry. */
  datatype DirEntry = DirEntry(inode: nat, fileType: byte, name: seq<byte>)

  function ByteOf(d: Block, at: nat): byte {
    if at < |d| then d[at] else 0
  }

  function InodeOf(d: Block, off: nat): nat {
    U32(d, off)
  }

  function RecLen(d: Block, off: nat): (r: nat)
    ensures r < 0x1_0000
  {
    U16(d, off + 4)
  }

  function NameLen(d: Block, off: nat): (r: nat)
    ensures r < 256
  {
    ByteOf(d, off + 6)
  }

  function NameOf(d: Block, off: nat): seq<byte> {
    var lo, hi := off + HEADER, off + HEADER + NameLen(d, off);
    if hi <= |d| then d[lo..hi] else if lo <= |d| then d[lo..] else []
  }

  function EntryAt(d: Block, off: nat): DirEntry {
    DirEntry(InodeOf(d, off), ByteOf(d, off + 7), NameOf(d, off))
  }

  /** The fields of a record on the disk: four bytes of inode, two of length, one of name length, one of type, and the name. */
  lemma {:induction false} FieldsAre(d: Block, off: nat)
    requires off + 8 <= |d| && off + 8 + d[off + 6] as nat <= |d|
    ensures InodeOf(d, off) == d[off] as nat + 256 * d[off + 1] as nat + 65536 * d[off + 2] as nat + 16777216 * d[off + 3] as nat
    ensures RecLen(d, off) == d[off + 4] as nat + 256 * d[off + 5] as nat
    ensures EntryAt(d, off) == DirEntry(InodeOf(d, off), d[off + 7], d[off + 8..off + 8 + d[off + 6] as nat])
  {
    WordsAre(d, off);
    WordsAre(d, off + 4);
  }

  /** The record at `off`: it has a header, stays in the block, and a live one holds its name. */
  predicate Record(d: Block, off: nat) {
    && off + HEADER <= |d| && HEADER <= RecLen(d, off) && off + RecLen(d, off) <= |d|
    && (InodeOf(d, off) != 0 ==> HEADER + NameLen(d, off) <= RecLen(d, off))
  }

  /** From `off` on, records tile the block. */
  predicate Tiled(d: Block, off: nat)
    decreases |d| - off
  {
    off == |d| || (Record(d, off) && Tiled(d, off + RecLen(d, off)))
  }

  /** The live entries from `off` on, in order. */
  function Entries(d: Block, off: nat): seq<DirEntry>
    decreases |d| - off
  {
    if off >= |d| || RecLen(d, off) < HEADER then []
    else (if InodeOf(d, off) != 0 then [EntryAt(d, off)] else []) + Entries(d, off + RecLen(d, off))
  }

  // ---------------------------------------------------------------- comparing names

  /** A string in C: the bytes before the first NUL. */
  function CString(s: seq<byte>): seq<byte> {
    if s == [] || s[0] == 0 then [] else [s[0]] + CString(s[1..])
  }

  /** A record's name matches every name that it is a prefix of; only one with a NUL in it ends where the name does. */
  predicate Matches(name: seq<byte>, entry: seq<byte>) {
    if 0 in entry then CString(entry) == CString(name) else entry <= CString(name)
  }

  lemma {:induction false} CStringUpTo(s: seq<byte>, k: nat)
    requires k <= |s| && forall j :: 0 <= j < k ==> s[j] != 0
    ensures k <= |CString(s)| && CString(s)[..k] == s[..k]
    ensures k == |s| || s[k] == 0 ==> CString(s) == s[..k]
    ensures k < |s| && s[k] != 0 ==> k < |CString(s)| && CString(s)[k] == s[k]
  {
    if k > 0 {
      CStringUpTo(s[1..], k - 1);
      assert s[..k] == [s[0]] + s[1..][..k - 1];
    }
  }

  /** `str_eql(name, entry, |entry|)`, where a NUL follows the bytes of `name`. */
  method StrEql(name: seq<byte>, entry: seq<byte>) returns (yes: bool)
    ensures yes == Matches(name, entry)
  {
    hide CString;
    var i := 0;
    while i < |entry|
      invariant i <= |entry| && i <= |name| && forall j :: 0 <= j < i ==> name[j] == entry[j] != 0
    {
      CStringUpTo(name, i);
      CStringUpTo(entry, i);
      if ByteOf(name, i) != entry[i] {
        NotMatching(name, entry, i);
        return false;
      }
      if entry[i] == 0 {
        assert name[..i] == entry[..i];
        return true;
      }
      i := i + 1;
    }
    CStringUpTo(name, i);
    assert entry == name[..i];
    return true;
  }

  lemma {:induction false} NotMatching(name: seq<byte>, entry: seq<byte>, i: nat)
    requires i < |entry| && i <= |name| && ByteOf(name, i) != entry[i]
    requires forall j :: 0 <= j < i ==> name[j] != 0 && entry[j] != 0
    ensures !Matches(name, entry)
  {
    hide CString;
    CStringUpTo(name, i);
    CStringUpTo(entry, i);
  }

  /** A name matches itself. */
  lemma {:induction false} CStringSelf(name: seq<byte>)
    ensures Matches(name, name)
  {
    if 0 !in name { CStringUpTo(name, |name|); }
  }

  /** Without NULs, a record's name matches the names it is a prefix of. */
  lemma {:induction false} MatchesPrefix(name: seq<byte>, entry: seq<byte>)
    requires 0 !in name && 0 !in entry
    ensures Matches(name, entry) <==> entry <= name
  {
    CStringUpTo(name, |name|);
  }

  /** A record's name with a NUL in it matches exactly the name that ends there. */
  lemma {:induction false} MatchesNul(name: seq<byte>, entry: seq<byte>, k: nat)
    requires 0 !in name && k < |entry| && entry[k] == 0 && forall j :: 0 <= j < k ==> entry[j] != 0
    ensures Matches(name, entry) <==> name == entry[..k]
  {
    CStringUpTo(name, |name|);
    CStringUpTo(entry, k);
  }

  /** The inode of the first entry that matches the name, or 0. */
  function Find(es: seq<DirEntry>, name: seq<byte>): nat {
    if es == [] then 0 else if Matches(name, es[0].name) then es[0].inode else Find(es[1..], name)
  }

  /** Entry `i` is the first one that matches the name. */
  predicate FirstMatch(es: seq<DirEntry>, name: seq<byte>, i: int) {
    0 <= i < |es| && Matches(name, es[i].name) && forall j :: 0 <= j < i ==> !Matches(name, es[j].name)
  }

  lemma {:induction false} FindFirst(es: seq<DirEntry>, name: seq<byte>)
    requires forall i :: 0 <= i < |es| ==> es[i].inode != 0
    ensures Find(es, name) == 0 <==> forall i :: 0 <= i < |es| ==> !Matches(name, es[i].name)
    ensures Find(es, name) != 0 ==> exists i :: FirstMatch(es, name, i) && Find(es, name) == es[i].inode
    ensures forall i :: FirstMatch(es, name, i) ==> Find(es, name) == es[i].inode
  {
    hide Matches;
    if es != [] {
      if Matches(name, es[0].name) {
        assert FirstMatch(es, name, 0);
      } else {
        var rest := es[1..];
        FindFirst(rest, name);
        FirstMatchShift(es, name);
        if Find(rest, name) != 0 {
          var i :| FirstMatch(rest, name, i) && Find(rest, name) == rest[i].inode;
          assert FirstMatch(es, name, i + 1);
        } else {
          assert forall i :: 1 <= i < |es| ==> es[i] == rest[i - 1];
        }
      }
    }
  }

  lemma {:induction false} FirstMatchShift(es: seq<DirEntry>, name: seq<byte>)
    requires es != [] && !Matches(name, es[0].name)
    ensures forall i :: FirstMatch(es[1..], name, i) <==> i >= 0 && FirstMatch(es, name, i + 1)
    ensures forall i :: FirstMatch(es, name, i) ==> i > 0 && FirstMatch(es[1..], name, i - 1)
  {
    hide Matches;
    var rest := es[1..];
    forall i | 0 <= i ensures FirstMatch(rest, name, i) <==> FirstMatch(es, name, i + 1) {
      assert forall j :: 0 <= j < |rest| ==> rest[j] == es[j + 1];
      if FirstMatch(rest, name, i) {
        forall j | 0 <= j < i + 1 ensures !Matches(name, es[j].name) {
          if j > 0 { assert es[j] == rest[j - 1]; }
        }
      }
    }
  }

  lemma {:induction false} FindJoin(a: seq<DirEntry>, b: seq<DirEntry>, name: seq<byte>)
    requires forall i :: 0 <= i < |a| ==> a[i].inode != 0
    ensures Find(a + b, name) == if Find(a, name) != 0 then Find(a, name) else Find(b, name)
  {
    hide Matches;
    if a == [] {
      assert a + b == b;
    } else {
      assert (a + b)[1..] == a[1..] + b;
      FindJoin(a[1..], b, name);
    }
  }

  lemma {:induction false} AllLive(d: Block, off: nat)
    ensures forall i :: 0 <= i < |Entries(d, off)| ==> Entries(d, off)[i].inode != 0
    decreases |d| - off
  {
    if off < |d| && RecLen(d, off) >= HEADER { AllLive(d, off + RecLen(d, off)); }
  }

  /** When an entry is found by its own name at the end of a list. */
  lemma {:induction false} NewLast(es: seq<DirEntry>, e: DirEntry)
    requires forall i :: 0 <= i < |es| ==> es[i].inode != 0
    ensures Find(es + [e], e.name) == e.inode <==> forall i :: FirstMatch(es, e.name, i) ==> es[i].inode == e.inode
    ensures (forall i :: 0 <= i < |es| ==> es[i].inode != e.inode) ==>
              (Find(es + [e], e.name) == e.inode <==> forall i :: 0 <= i < |es| ==> !Matches(e.name, es[i].name))
  {
    hide Matches;
    FindJoin(es, [e], e.name);
    FindFirst(es, e.name);
    CStringSelf(e.name);
    assert [e][1..] == [];
    if Find(es, e.name) != 0 {
      var i :| FirstMatch(es, e.name, i) && Find(es, e.name) == es[i].inode;
      assert Matches(e.name, es[i].name);
    }
  }

  /** The scan of one block in `ext2_find_child`. */
  method ScanBlock(d: Block, name: seq<byte>) returns (inode: nat)
    ensures inode == Find(Entries(d, 0), name)
  {
    hide RecLen, EntryAt, InodeOf, NameOf, Matches;
    var off := 0;
    while off < |d|
      invariant Find(Entries(d, 0), name) == Find(Entries(d, off), name)
      decreases |d| - off
    {
      if RecLen(d, off) < HEADER {
        break;
      }
      FindStep(d, off, name);
      if InodeOf(d, off) != 0 {
        var same := StrEql(name, NameOf(d, off));
        if same {
          return InodeOf(d, off);
        }
      }
      off := off + RecLen(d, off);
    }
    return 0;
  }

  lemma {:induction false} FindStep(d: Block, off: nat, name: seq<byte>)
    requires off < |d| && RecLen(d, off) >= HEADER
    ensures Find(Entries(d, off), name) ==
              if InodeOf(d, off) != 0 && Matches(name, NameOf(d, off)) then InodeOf(d, off) else Find(Entries(d, off + RecLen(d, off)), name)
  {
    hide RecLen, InodeOf, NameOf, Matches;
    var rest := Entries(d, off + RecLen(d, off));
    if InodeOf(d, off) != 0 {
      assert ([EntryAt(d, off)] + rest)[1..] == rest;
    } else {
      assert [] + rest == rest;
    }
  }

  // ---------------------------------------------------------------- appending

  /** Padded to a multiple of 4. */
  function Padded(n: nat): nat {
    (n + 3) / 4 * 4
  }

  /** The offset of the last live record from `off` on, or `last`. */
  function LastLive(d: Block, off: nat, last: Option<nat>): Option<nat>
    decreases |d| - off
  {
    if off >= |d| || RecLen(d, off) < HEADER then last
    else
      var last' := if InodeOf(d, off) != 0 then Some(off) else last;
      if off + RecLen(d, off) >= |d| then last' else LastLive(d, off + RecLen(d, off), last')
  }

  /** A record's bytes up to the end of its name. */
  function RecordBytes(e: DirEntry, recLen: nat): (r: seq<byte>)
    requires |e.name| < 256
    ensures |r| == HEADER + |e.name|
  {
    LittleEndian(e.inode, 4) + LittleEndian(recLen, 2) + [|e.name|, e.fileType] + e.name
  }

  /** Where the new record goes and how long it is; none if the last live record has no room. */
  function Room(d: Block, size: nat): Option<(nat, nat)> {
    match LastLive(d, 0, None)
    case None => Some((0, |d|))
    case Some(p) =>
      var actual := Padded(HEADER + NameLen(d, p));
      if RecLen(d, p) >= actual + size && p + RecLen(d, p) <= |d| then Some((p + actual, RecLen(d, p) - actual)) else None
  }

  /** `p` is the start of a record that is reached from `off`. */
  predicate Chain(d: Block, off: nat, p: nat)
    decreases |d| - off
  {
    off == p || (off < p && Record(d, off) && Chain(d, off + RecLen(d, off), p))
  }

  /** The live entries of the records from `off` up to `p`. */
  function Between(d: Block, off: nat, p: nat): seq<DirEntry>
    decreases |d| - off
  {
    if off >= p || off >= |d| || RecLen(d, off) < HEADER then []
    else (if InodeOf(d, off) != 0 then [EntryAt(d, off)] else []) + Between(d, off + RecLen(d, off), p)
  }

  ghost predicate Agree(d: Block, d': Block, lo: nat, hi: nat) {
    |d'| == |d| && hi <= |d| && forall i :: lo <= i < hi ==> d'[i] == d[i]
  }

  lemma {:induction false} AgreeSlice(d: Block, d': Block, lo: nat, hi: nat, a: nat, b: nat)
    requires Agree(d, d', lo, hi) && lo <= a <= b <= hi
    ensures d'[a..b] == d[a..b] && Agree(d, d', a, b)
  {
  }

  /** A record is read from its own bytes. */
  lemma {:induction false} SameRecord(d: Block, d': Block, off: nat, hi: nat)
    requires Agree(d, d', off, hi) && off + HEADER <= hi
    ensures InodeOf(d', off) == InodeOf(d, off) && RecLen(d', off) == RecLen(d, off) && NameLen(d', off) == NameLen(d, off)
    ensures off + HEADER + NameLen(d, off) <= hi ==> EntryAt(d', off) == EntryAt(d, off)
  {
    AgreeSlice(d, d', off, hi, off, off + 4);
    AgreeSlice(d, d', off, hi, off + 4, off + 6);
    hide U32, U16;
    SameWords(d, d', off);
    SameWords(d, d', off + 4);
    if off + HEADER + NameLen(d, off) <= hi {
      AgreeSlice(d, d', off, hi, off + HEADER, off + HEADER + NameLen(d, off));
    }
  }

  lemma {:induction false} SameRecordFits(d: Block, d': Block, off: nat)
    requires Record(d, off) && Agree(d, d', off, off + RecLen(d, off))
    ensures Record(d', off) && RecLen(d', off) == RecLen(d, off) && InodeOf(d', off) == InodeOf(d, off)
    ensures InodeOf(d, off) != 0 ==> EntryAt(d', off) == EntryAt(d, off)
  {
    SameRecord(d, d', off, off + RecLen(d, off));
    hide EntryAt, InodeOf, RecLen, NameLen;
  }

  /** Changing bytes from `p` on leaves the records before `p` alone. */
  lemma {:induction false} PrefixKept(d: Block, d': Block, off: nat, p: nat, lo: nat)
    requires Agree(d, d', lo, p) && lo <= off && Chain(d, off, p)
    ensures Chain(d', off, p) && Entries(d', off) == Between(d, off, p) + Entries(d', p) && (Tiled(d', p) ==> Tiled(d', off))
    decreases |d| - off
  {
    hide EntryAt, InodeOf, RecLen, NameLen, Agree, Entries, Between, Tiled;
    if off == p {
      NoneBetween(d, p);
      assert [] + Entries(d', p) == Entries(d', p);
    } else {
      var next := off + RecLen(d, off);
      ChainOrder(d, next, p);
      AgreeSlice(d, d', lo, p, off, next);
      SameRecordFits(d, d', off);
      PrefixKept(d, d', next, p, lo);
      EntriesStep(d', off);
      BetweenStep(d, off, p);
      Assoc(if InodeOf(d, off) != 0 then [EntryAt(d, off)] else [], Between(d, next, p), Entries(d', p));
    }
  }

  lemma {:induction false} Assoc(a: seq<DirEntry>, b: seq<DirEntry>, c: seq<DirEntry>)
    ensures a + (b + c) == (a + b) + c
  {
  }

  lemma {:induction false} NoneBetween(d: Block, p: nat)
    ensures Between(d, p, p) == []
  {
  }

  lemma {:induction false} BetweenStep(d: Block, off: nat, p: nat)
    requires Record(d, off) && off < p
    ensures Between(d, off, p) == (if InodeOf(d, off) != 0 then [EntryAt(d, off)] else []) + Between(d, off + RecLen(d, off), p)
  {
  }

  lemma {:induction false} AgreeSelf(d: Block, lo: nat, hi: nat)
    requires hi <= |d|
    ensures Agree(d, d, lo, hi)
  {
  }

  lemma {:induction false} ChainOrder(d: Block, off: nat, p: nat)
    requires Chain(d, off, p)
    ensures off <= p
  {
  }

  lemma {:induction false} EntriesStep(d: Block, off: nat)
    requires Record(d, off)
    ensures Entries(d, off) == (if InodeOf(d, off) != 0 then [EntryAt(d, off)] else []) + Entries(d, off + RecLen(d, off))
    ensures Tiled(d, off) == Tiled(d, off + RecLen(d, off))
  {
  }

  /** Changing bytes before `q` leaves the records from `q` on alone. */
  lemma {:induction false} SuffixKept(d: Block, d': Block, q: nat, off: nat)
    requires Agree(d, d', q, |d|) && q <= off && Tiled(d, off)
    ensures Tiled(d', off) && Entries(d', off) == Entries(d, off)
    decreases |d| - off
  {
    hide EntryAt, InodeOf, RecLen, NameLen, Agree, Entries;
    AgreeLength(d, d', q);
    EndsEmpty(d);
    EndsEmpty(d');
    if off != |d| {
      var next := off + RecLen(d, off);
      AgreeSlice(d, d', q, |d|, off, next);
      SameRecordFits(d, d', off);
      EntriesStep(d, off);
      EntriesStep(d', off);
      SuffixKept(d, d', q, next);
    }
  }

  lemma {:induction false} AgreeLength(d: Block, d': Block, q: nat)
    requires Agree(d, d', q, |d|)
    ensures |d'| == |d|
  {
  }

  /** After the last live record there are no live entries; without one there are none at all. */
  lemma {:induction false} LastLiveIs(d: Block, off: nat, last: Option<nat>)
    requires Tiled(d, off)
    ensures var r := LastLive(d, off, last); (r == last && Entries(d, off) == []) || (r.Some? && IsLast(d, off, r.value))
    decreases |d| - off
  {
    hide EntryAt, InodeOf, RecLen, NameLen, Entries;
    EndsEmpty(d);
    if off != |d| {
      EntriesStep(d, off);
      var next := off + RecLen(d, off);
      if next < |d| { LastLiveIs(d, next, if InodeOf(d, off) != 0 then Some(off) else last); }
    }
  }

  /** A live record that is reached has an entry. */
  lemma {:induction false} LiveReached(d: Block, off: nat, q: nat)
    requires Chain(d, off, q) && Record(d, q) && InodeOf(d, q) != 0
    ensures Entries(d, off) != []
    decreases |d| - off
  {
    hide EntryAt, InodeOf, RecLen, NameLen, Entries;
    EntriesStep(d, if off < q then off else q);
    if off < q { LiveReached(d, off + RecLen(d, off), q); }
  }

  /** A chain that leads past the start of a record leads through it. */
  lemma {:induction false} ChainThrough(d: Block, off: nat, p: nat, q: nat)
    requires Chain(d, off, p) && Chain(d, off, q) && p < q
    ensures Record(d, p) && Chain(d, p + RecLen(d, p), q)
    decreases |d| - off
  {
    hide EntryAt, InodeOf, RecLen, NameLen;
    if off < p { ChainThrough(d, off + RecLen(d, off), p, q); }
  }

  lemma {:induction false} LastUnique(d: Block, p: nat, q: nat)
    requires IsLast(d, 0, p) && IsLast(d, 0, q)
    ensures p == q
  {
    hide EntryAt, InodeOf, RecLen, NameLen, Entries, Tiled, Record;
    if p < q {
      ChainThrough(d, 0, p, q);
      LiveReached(d, p + RecLen(d, p), q);
    } else if q < p {
      ChainThrough(d, 0, q, p);
      LiveReached(d, q + RecLen(d, q), p);
    }
  }

  /** `Padded` is the next multiple of 4. */
  lemma {:induction false} PaddedIs(n: nat)
    ensures Padded(n) % 4 == 0 && n <= Padded(n) < n + 4
  {
  }

  /** There is room for a name of `k` bytes when no entry is live, or when the length of the last live record holds the
      old entry and the new one, each rounded up to a multiple of 4. */
  lemma {:induction false} RoomIff(d: Block, k: nat)
    requires Tiled(d, 0)
    ensures Room(d, Padded(8 + k)).Some? <==>
              Entries(d, 0) == [] || exists p: nat :: IsLast(d, 0, p) && U16(d, p + 4) >= Padded(8 + d[p + 6] as nat) + Padded(8 + k)
  {
    hide EntryAt, InodeOf, Entries, Tiled, Padded, U16;
    LastLiveIs(d, 0, None);
    var r := LastLive(d, 0, None);
    if r.Some? && IsLast(d, 0, r.value) {
      LiveReached(d, 0, r.value);
      forall p: nat | IsLast(d, 0, p) ensures p == r.value { LastUnique(d, p, r.value); }
    }
  }

  lemma {:induction false} EndsEmpty(d: Block)
    ensures Entries(d, |d|) == [] && Tiled(d, |d|)
  {
  }

  /** The live record at `p`, reached from `off`, has no live record after it. */
  predicate IsLast(d: Block, off: nat, p: nat) {
    && off <= p && Chain(d, off, p) && Record(d, p) && InodeOf(d, p) != 0
    && Tiled(d, p + RecLen(d, p)) && Entries(d, p + RecLen(d, p)) == []
  }

  // ---- the new record

  lemma {:induction false} PlacedRecord(d: Block, off: nat, e: DirEntry, recLen: nat)
    requires |e.name| < 256 && off + HEADER + |e.name| <= |d| && recLen < 0x1_0000 && e.inode < 0x1_0000_0000
    ensures var d' := Splice(d, off, RecordBytes(e, recLen));
            && RecLen(d', off) == recLen && EntryAt(d', off) == e && NameLen(d', off) == |e.name|
            && Agree(d, d', 0, off) && Agree(d, d', off + HEADER + |e.name|, |d|)
  {
    hide FromLittleEndian, LittleEndian, RecordBytes, Splice;
    assert Pow256(4) == 0x1_0000_0000 && Pow256(2) == 0x1_0000;
    LittleEndianRoundTrip(e.inode, 4);
    LittleEndianRoundTrip(recLen, 2);
    PlacedParts(d, off, e, recLen);
  }

  /** The fields of a record, where it is placed. */
  lemma {:induction false} PlacedParts(d: Block, off: nat, e: DirEntry, recLen: nat)
    requires |e.name| < 256 && off + HEADER + |e.name| <= |d|
    ensures var d' := Splice(d, off, RecordBytes(e, recLen));
            && d'[off..off + 4] == LittleEndian(e.inode, 4) && d'[off + 4..off + 6] == LittleEndian(recLen, 2)
            && d'[off + 6] == |e.name| && d'[off + 7] == e.fileType && d'[off + 8..off + 8 + |e.name|] == e.name
  {
    hide LittleEndian, Splice;
    var b := RecordBytes(e, recLen);
    var d' := Splice(d, off, b);
    assert forall j :: 0 <= j < |b| ==> d'[off + j] == b[j];
    assert b[..4] == LittleEndian(e.inode, 4) && b[4..6] == LittleEndian(recLen, 2) && b[8..] == e.name;
    assert d'[off..off + |b|] == b;
    assert d'[off..off + 4] == d'[off..off + |b|][..4] && d'[off + 4..off + 6] == d'[off..off + |b|][4..6];
  }

  /** A record made shorter keeps everything but its length. */
  lemma {:induction false} Shrunk(d: Block, p: nat, len: nat)
    requires Record(d, p) && InodeOf(d, p) != 0 && len < 0x1_0000
    ensures var d' := PutU16(d, p + 4, len);
            && RecLen(d', p) == len && EntryAt(d', p) == EntryAt(d, p) && NameLen(d', p) == NameLen(d, p) && InodeOf(d', p) == InodeOf(d, p)
            && Agree(d, d', 0, p) && Agree(d, d', p + 6, |d|)
  {
    var d' := PutU16(d, p + 4, len);
    assert Pow256(2) == 0x1_0000;
    LittleEndianRoundTrip(len, 2);
    assert d'[p + 4..p + 6] == LittleEndian(len, 2);
    AgreeSlice(d, d', p + 6, |d|, p + 8, p + 8 + NameLen(d, p));
    assert d'[p..p + 4] == d[p..p + 4];
    SameWords(d, d', p);
    hide FromLittleEndian, LittleEndian;
  }

  /** A record before the change keeps its entry. */
  lemma {:induction false} StillThere(d: Block, d': Block, p: nat, hi: nat)
    requires Agree(d, d', 0, hi) && p + HEADER + NameLen(d, p) <= hi
    ensures RecLen(d', p) == RecLen(d, p) && EntryAt(d', p) == EntryAt(d, p) && NameLen(d', p) == NameLen(d, p) && InodeOf(d', p) == InodeOf(d, p)
  {
    SameRecord(d, d', p, hi);
  }

  /** The block with a record for `e` in the slack of the last live record, at `p`. */
  function WithEntry(d: Block, p: nat, e: DirEntry): Block
    requires Record(d, p) && InodeOf(d, p) != 0 && |e.name| <= MAX_NAME
    requires RecLen(d, p) >= Padded(HEADER + NameLen(d, p)) + Padded(HEADER + |e.name|)
  {
    var actual := Padded(HEADER + NameLen(d, p));
    Splice(PutU16(d, p + 4, actual), p + actual, RecordBytes(e, RecLen(d, p) - actual))
  }

  /** The old record, made shorter, before the new one. */
  lemma {:induction false} SplitFirst(d: Block, d1: Block, p: nat, e: DirEntry, actual: nat, rest: nat)
    requires p + HEADER + NameLen(d1, p) <= p + actual && p + actual + HEADER + |e.name| <= |d1| && |e.name| < 256
    ensures var d' := Splice(d1, p + actual, RecordBytes(e, rest));
            RecLen(d', p) == RecLen(d1, p) && EntryAt(d', p) == EntryAt(d1, p) && NameLen(d', p) == NameLen(d1, p) && InodeOf(d', p) == InodeOf(d1, p)
  {
    hide RecordBytes, EntryAt, RecLen, InodeOf, NameLen;
    StillThere(d1, Splice(d1, p + actual, RecordBytes(e, rest)), p, p + actual);
  }

  /** The two records that share the old one's space. */
  lemma {:induction false} SplitRecord(d: Block, p: nat, e: DirEntry)
    requires Record(d, p) && InodeOf(d, p) != 0 && |e.name| <= MAX_NAME && 0 < e.inode < 0x1_0000_0000
    requires RecLen(d, p) >= Padded(HEADER + NameLen(d, p)) + Padded(HEADER + |e.name|)
    ensures var d', q := WithEntry(d, p, e), p + Padded(HEADER + NameLen(d, p));
            && Agree(d, d', 0, p) && Agree(d, d', p + RecLen(d, p), |d|)
            && Record(d', p) && p + RecLen(d', p) == q && InodeOf(d', p) != 0 && EntryAt(d', p) == EntryAt(d, p)
            && Record(d', q) && q + RecLen(d', q) == p + RecLen(d, p) && InodeOf(d', q) != 0 && EntryAt(d', q) == e
  {
    hide RecordBytes, EntryAt, RecLen, InodeOf, NameLen, PutU16, Padded, Splice, Agree;
    var actual := Padded(HEADER + NameLen(d, p));
    var rest := RecLen(d, p) - actual;
    PaddedUp(HEADER + NameLen(d, p));
    PaddedUp(HEADER + |e.name|);
    Shrunk(d, p, actual);
    var d1 := PutU16(d, p + 4, actual);
    SplitFirst(d, d1, p, e, actual, rest);
    PlacedRecord(d1, p + actual, e, rest);
    var d' := Splice(d1, p + actual, RecordBytes(e, rest));
    EntryFields(d', p + actual);
    AgreeTwice(d, d1, d', p, actual, HEADER + |e.name|, RecLen(d, p));
    BothRecords(d', p, actual, rest, |e.name|, |d|);
  }

  lemma {:induction false} BothRecords(d: Block, p: nat, actual: nat, rest: nat, k: nat, n: nat)
    requires |d| == n && RecLen(d, p) == actual && HEADER + NameLen(d, p) <= actual && p + actual + rest <= n
    requires RecLen(d, p + actual) == rest && NameLen(d, p + actual) == k && HEADER + k <= rest
    ensures Record(d, p) && Record(d, p + actual)
  {
  }

  lemma {:induction false} PaddedUp(n: nat)
    ensures n <= Padded(n) < n + 4
  {
  }

  lemma {:induction false} EntryFields(d: Block, off: nat)
    ensures EntryAt(d, off).inode == InodeOf(d, off)
  {
  }

  lemma {:induction false} AgreeTwice(d: Block, d1: Block, d2: Block, p: nat, actual: nat, k: nat, len: nat)
    requires Agree(d, d1, 0, p) && Agree(d, d1, p + 6, |d|) && 6 <= actual && actual + k <= len && p + len <= |d|
    requires |d1| == |d| && Agree(d1, d2, 0, p + actual) && Agree(d1, d2, p + actual + k, |d1|)
    ensures Agree(d, d2, 0, p) && Agree(d, d2, p + len, |d|)
  {
  }

  /** Appending keeps the tiling and adds the entry after all the live ones. */
  lemma {:induction false} Appended(d: Block, p: nat, e: DirEntry)
    requires Tiled(d, 0) && IsLast(d, 0, p) && |e.name| <= MAX_NAME && 0 < e.inode < 0x1_0000_0000
    requires RecLen(d, p) >= Padded(HEADER + NameLen(d, p)) + Padded(HEADER + |e.name|)
    ensures Tiled(WithEntry(d, p, e), 0) && Entries(WithEntry(d, p, e), 0) == Entries(d, 0) + [e]
  {
    hide EntryAt, InodeOf, RecLen, NameLen, Entries, Agree, WithEntry, Tiled;
    var d', end := WithEntry(d, p, e), p + RecLen(d, p);
    SplitRecord(d, p, e);
    var q := p + RecLen(d', p);
    SuffixKept(d, d', end, end);
    EntriesStep(d', p);
    EntriesStep(d', q);
    EntriesStep(d, p);
    PrefixKept(d, d', 0, p, 0);
    AgreeSelf(d, 0, p);
    PrefixKept(d, d, 0, p, 0);
    var before := Between(d, 0, p);
    assert before + ([EntryAt(d, p)] + ([e] + [])) == (before + ([EntryAt(d, p)] + [])) + [e];
  }

  /** A block without live entries becomes one record. */
  lemma {:induction false} OnlyEntry(d: Block, e: DirEntry)
    requires 512 <= |d| < 0x1_0000 && |e.name| <= MAX_NAME && 0 < e.inode < 0x1_0000_0000
    ensures var d' := Splice(d, 0, RecordBytes(e, |d|)); Tiled(d', 0) && Entries(d', 0) == [e]
  {
    hide EntryAt, InodeOf, RecLen, NameLen, Entries, RecordBytes;
    var d' := Splice(d, 0, RecordBytes(e, |d|));
    PlacedRecord(d, 0, e, |d|);
    EntryFields(d', 0);
    EntriesStep(d', 0);
    EndsEmpty(d');
  }

  const NAME_A: seq<byte> := [97]
  const NAME_AB: seq<byte> := [97, 98]

  /** A name in the way: once "a" is added to a block without live entries, "ab" is found as "a", and it still is
      when "ab" is added too. */
  lemma {:induction false} PrefixInTheWay(d: Block, e: DirEntry, x: DirEntry)
    requires |d| == 512 && e == DirEntry(12, 1, NAME_A) && x == DirEntry(13, 1, NAME_AB)
    ensures var d' := Splice(d, 0, RecordBytes(e, |d|));
            && Tiled(d', 0) && Find(Entries(d', 0), NAME_AB) == 12
            && IsLast(d', 0, 0) && RecLen(d', 0) >= Padded(HEADER + NameLen(d', 0)) + Padded(HEADER + |x.name|)
            && Tiled(WithEntry(d', 0, x), 0) && Find(Entries(WithEntry(d', 0, x), 0), NAME_AB) == 12
  {
    var d' := Splice(d, 0, RecordBytes(e, |d|));
    OnlyEntry(d, e);
    PlacedRecord(d, 0, e, |d|);
    hide Tiled, RecLen, EntryAt, NameLen, InodeOf, RecordBytes, Splice, WithEntry, Entries, Find;
    FoundAsA([e]);
    EntryFields(d', 0);
    EndsEmpty(d');
    Appended(d', 0, x);
    FoundAsA([e] + [x]);
  }

  lemma {:induction false} FoundAsA(es: seq<DirEntry>)
    requires es != [] && es[0].inode == 12 && es[0].name == NAME_A
    ensures Find(es, NAME_AB) == 12
  {
    MatchesPrefix(NAME_AB, NAME_A);
  }

  /** The search for the last live record. */
  method ScanLast(d: Block) returns (last: Option<nat>)
    ensures last == LastLive(d, 0, None)
  {
    hide RecLen, InodeOf;
    var off: nat := 0;
    last := None;
    while off < |d|
      invariant LastLive(d, 0, None) == LastLive(d, off, last)
      decreases |d| - off
    {
      if RecLen(d, off) < HEADER {
        break;
      }
      if InodeOf(d, off) != 0 {
        last := Some(off);
      }
      if off + RecLen(d, off) >= |d| {
        break;
      }
      off := off + RecLen(d, off);
    }
  }

  lemma {:induction false} RecLenInside(d: Block, p: nat)
    requires RecLen(d, p) > 0
    ensures p + 6 <= |d|
  {
  }

  /** Where the new record lies: it takes the whole block when there was no live record, and otherwise everything behind
      the last live record's entry, whose length is cut to that entry. */
  ghost predicate TakesRest(d: Block, d': Block, e: DirEntry) {
    && (Entries(d, 0) == [] ==> EntryAt(d', 0) == e && U16(d', 4) == |d|)
    && forall p: nat :: IsLast(d, 0, p) ==> SharesRecord(d, d', e, p, p + Padded(8 + d[p + 6] as nat))
  }

  /** The record at `p` ends at `q`, and the one of `e` at `q` ends where the old one did; nothing else changed. */
  ghost predicate SharesRecord(d: Block, d': Block, e: DirEntry, p: nat, q: nat) {
    && EntryAt(d', q) == e && U16(d', q + 4) == U16(d, p + 4) - (q - p)
    && EntryAt(d', p) == EntryAt(d, p) && U16(d', p + 4) == q - p
    && Agree(d, d', 0, p) && Agree(d, d', p + U16(d, p + 4), |d|)
  }

  lemma {:induction false} TakesBlock(d: Block, e: DirEntry)
    requires 512 <= |d| < 0x1_0000 && |e.name| <= MAX_NAME && 0 < e.inode < 0x1_0000_0000
    requires Tiled(d, 0) && LastLive(d, 0, None) == None
    ensures TakesRest(d, Splice(d, 0, RecordBytes(e, |d|)), e)
  {
    hide EntryAt, InodeOf, NameLen, Entries, RecordBytes, Record, U16, Tiled, Splice;
    PlacedRecord(d, 0, e, |d|);
    LastLiveIs(d, 0, None);
    forall p: nat ensures !IsLast(d, 0, p) {
      if IsLast(d, 0, p) { LiveReached(d, 0, p); }
    }
  }

  lemma {:induction false} TakesRecord(d: Block, p: nat, e: DirEntry)
    requires IsLast(d, 0, p) && |e.name| <= MAX_NAME && 0 < e.inode < 0x1_0000_0000
    requires RecLen(d, p) >= Padded(HEADER + NameLen(d, p)) + Padded(HEADER + |e.name|)
    ensures TakesRest(d, WithEntry(d, p, e), e)
  {
    hide EntryAt, InodeOf, Entries, WithEntry, U16, Tiled, Padded;
    SplitRecord(d, p, e);
    LiveReached(d, 0, p);
    forall q: nat | IsLast(d, 0, q) ensures q == p { LastUnique(d, p, q); }
  }

  /** The part of `ext2_add_dir_entry` that works on the last block of the directory. */
  method AppendEntry(d: Block, e: DirEntry) returns (ok: bool, d': Block)
    requires 512 <= |d| <= 4096 && 0 < |e.name| <= MAX_NAME && 0 < e.inode < 0x1_0000_0000
    ensures |d'| == |d| && (ok <==> Room(d, Padded(HEADER + |e.name|)).Some?) && (!ok ==> d' == d)
    ensures ok && Tiled(d, 0) ==> Tiled(d', 0) && Entries(d', 0) == Entries(d, 0) + [e]
    ensures Tiled(d, 0) ==>
              (ok <==> Entries(d, 0) == [] || exists p: nat :: IsLast(d, 0, p) && U16(d, p + 4) >= Padded(8 + d[p + 6] as nat) + Padded(8 + |e.name|))
    ensures ok && Tiled(d, 0) ==> TakesRest(d, d', e)
  {
    hide EntryAt, InodeOf, RecLen, NameLen, Entries, Tiled, RecordBytes, Record, IsLast, U16, TakesRest, Padded, PutU16, Splice;
    var size := Padded(HEADER + |e.name|);
    PaddedIs(HEADER + |e.name|);
    if Tiled(d, 0) { RoomIff(d, |e.name|); }
    var last := ScanLast(d);
    if Tiled(d, 0) { LastLiveIs(d, 0, None); }
    match last
    case None =>
      OnlyEntry(d, e);
      if Tiled(d, 0) { TakesBlock(d, e); }
      return true, Splice(d, 0, RecordBytes(e, |d|));
    case Some(p) =>
      var actual := Padded(HEADER + NameLen(d, p));
      PaddedIs(HEADER + NameLen(d, p));
      if RecLen(d, p) < actual + size || p + RecLen(d, p) > |d| {
        return false, d;
      }
      RecLenInside(d, p);
      if Tiled(d, 0) {
        LastParts(d, p);
        Appended(d, p, e);
        TakesRecord(d, p, e);
      }
      return true, Splice(PutU16(d, p + 4, actual), p + actual, RecordBytes(e, RecLen(d, p) - actual));
  }

  lemma {:induction false} LastParts(d: Block, p: nat)
    requires IsLast(d, 0, p)
    ensures Record(d, p) && InodeOf(d, p) != 0
  {
  }
}
