/** Bytes, in-place sequence updates and little-endian numbers. */
module Bytes {

  type byte = b: nat | b < 256

  /** `s` with `d` copied over it from index `at` on: what `memcpy(&s[at], d, |d|)` leaves behind. */
  function Splice<T>(s: seq<T>, at: nat, d: seq<T>): (r: seq<T>)
    requires at + |d| <= |s|
    ensures |r| == |s|
    ensures forall i :: 0 <= i < |s| ==> r[i] == if at <= i < at + |d| then d[i - at] else s[i]
  {
    s[..at] + d + s[at + |d|..]
  }

  function Pow256(k: nat): (p: nat)
    ensures p > 0
  {
    if k == 0 then 1 else 256 * Pow256(k - 1)
  }

  /** The `k`-byte little-endian encoding of `v`, truncated to `k` bytes as a C store truncates. */
  function LittleEndian(v: nat, k: nat): (r: seq<byte>)
    ensures |r| == k
  {
    if k == 0 then [] else [v % 256] + LittleEndian(v / 256, k - 1)
  }

  function FromLittleEndian(s: seq<byte>): (v: nat)
    ensures v < Pow256(|s|)
  {
    if s == [] then 0 else s[0] + 256 * FromLittleEndian(s[1..])
  }

  lemma {:induction false} LittleEndianRoundTrip(v: nat, k: nat)
    requires v < Pow256(k)
    ensures FromLittleEndian(LittleEndian(v, k)) == v
  {
    if k > 0 {
      LittleEndianRoundTrip(v / 256, k - 1);
      assert LittleEndian(v, k)[1..] == LittleEndian(v / 256, k - 1);
    }
  }

  /** Quotient and remainder of an address that advances through fixed-size blocks. */
  lemma {:induction false} BlockOf(x: nat, b: nat)
    requires b > 0
    ensures 0 <= x % b < b && x == x / b * b + x % b
  {
  }

  lemma {:induction false} MulMono(x: nat, y: nat, b: nat)
    requires x <= y
    ensures x * b <= y * b
  {
  }

  /** Blocks do not overlap: an address lies in block `q` exactly when `q` is its quotient. */
  lemma {:induction false} BlockUnique(x: nat, q: nat, b: nat)
    requires b > 0
    ensures q * b <= x < q * b + b <==> x / b == q
  {
    BlockOf(x, b);
    if x / b < q {
      MulMono(x / b + 1, q, b);
    } else if q < x / b {
      MulMono(q + 1, x / b, b);
    }
  }

  /** The 32-bit little-endian word at `at`, or 0 past the end. */
  function U32(s: seq<byte>, at: nat): (v: nat)
    ensures v < 0x1_0000_0000
  {
    assert Pow256(4) == 0x1_0000_0000;
    if at + 4 <= |s| then FromLittleEndian(s[at..at + 4]) else 0
  }

  /** The words of the disk, byte by byte. */
  lemma {:induction false} WordsAre(s: seq<byte>, at: nat)
    ensures at + 4 <= |s| ==> U32(s, at) == s[at] as nat + 256 * s[at + 1] as nat + 65536 * s[at + 2] as nat + 16777216 * s[at + 3] as nat
    ensures at + 2 <= |s| ==> U16(s, at) == s[at] as nat + 256 * s[at + 1] as nat
  {
    if at + 4 <= |s| {
      var w := s[at..at + 4];
      assert w[1..] == s[at + 1..at + 4] && w[1..][1..] == s[at + 2..at + 4] && w[1..][1..][1..] == s[at + 3..at + 4];
      assert w[1..][1..][1..][1..] == [];
      FourBytes(w);
    }
    if at + 2 <= |s| {
      var w := s[at..at + 2];
      assert w[1..][1..] == [];
      assert FromLittleEndian(w[1..]) == w[1] as nat + 256 * FromLittleEndian(w[1..][1..]);
    }
  }

  lemma {:induction false} FourBytes(w: seq<byte>)
    requires |w| == 4
    ensures FromLittleEndian(w) == w[0] as nat + 256 * w[1] as nat + 65536 * w[2] as nat + 16777216 * w[3] as nat
  {
    var x := w[1..];
    var y := x[1..];
    var z := y[1..];
    assert z[1..] == [] && FromLittleEndian([]) == 0;
    assert FromLittleEndian(z) == z[0] as nat && FromLittleEndian(y) == y[0] as nat + 256 * FromLittleEndian(z);
    assert FromLittleEndian(x) == x[0] as nat + 256 * FromLittleEndian(y);
  }

  /** Byte `i` of a number, the least one first. */
  lemma {:induction false} LittleEndianByte(v: nat, k: nat, i: nat)
    requires i < k
    ensures LittleEndian(v, k)[i] == v / Pow256(i) % 256 && (i == 0 ==> Pow256(i) == 1) && (i > 0 ==> Pow256(i) == 256 * Pow256(i - 1))
  {
    if i > 0 {
      LittleEndianByte(v / 256, k - 1, i - 1);
      DivTwice(v, Pow256(i - 1));
    }
  }

  lemma {:induction false} DivTwice(v: nat, b: nat)
    requires b > 0
    ensures v / 256 / b == v / (256 * b)
  {
    var u := v / 256;
    var q, m := Quo(u, b), Rem(u, b);
    QuoRem(u, b);
    QuoIsDiv(u, b);
    var x := q * b;
    assert u == x + m && q * (256 * b) == 256 * x;
    DivIs(v, 256 * b, q, 256 * m + v % 256);
  }

  lemma {:induction false} DivIs(v: nat, m: nat, q: nat, r: nat)
    requires m > 0 && v == q * m + r && r < m
    ensures v / m == q
  {
    QuoUnique(v, q, m);
    QuoIsDiv(v, m);
  }

  function PutU32(s: seq<byte>, at: nat, v: nat): (r: seq<byte>)
    requires at + 4 <= |s|
    ensures |r| == |s|
  {
    Splice(s, at, LittleEndian(v, 4))
  }

  lemma {:induction false} U32OfPut(s: seq<byte>, at: nat, v: nat, i: nat)
    requires at + 4 <= |s| && v < 0x1_0000_0000
    ensures U32(PutU32(s, at, v), at) == v
    ensures i + 4 <= at || at + 4 <= i ==> U32(PutU32(s, at, v), i) == U32(s, i)
  {
    assert Pow256(4) == 0x1_0000_0000;
    LittleEndianRoundTrip(v, 4);
    var r := PutU32(s, at, v);
    assert r[at..at + 4] == LittleEndian(v, 4);
    if (i + 4 <= at || at + 4 <= i) && i + 4 <= |s| {
      assert r[i..i + 4] == s[i..i + 4];
    }
  }

  /** Quotient and remainder by repeated subtraction; `QuoRem` and `QuoIsDiv` say that they are `/` and `%`. */
  function Quo(a: nat, b: nat): nat
    decreases a
  {
    if b == 0 || a < b then 0 else 1 + Quo(a - b, b)
  }

  function Rem(a: nat, b: nat): (r: nat)
    ensures b > 0 ==> r < b
    decreases a
  {
    if b == 0 then 0 else if a < b then a else Rem(a - b, b)
  }

  lemma {:induction false} QuoRem(a: nat, b: nat)
    requires b > 0
    ensures a == Quo(a, b) * b + Rem(a, b)
    decreases a
  {
    if a >= b {
      QuoRem(a - b, b);
      assert Quo(a, b) * b == Quo(a - b, b) * b + b;
    }
  }

  lemma {:induction false} QuoUnique(a: nat, q: nat, b: nat)
    requires b > 0
    ensures q * b <= a < q * b + b <==> Quo(a, b) == q
  {
    QuoRem(a, b);
    if Quo(a, b) < q {
      MulMono(Quo(a, b) + 1, q, b);
    } else if q < Quo(a, b) {
      MulMono(q + 1, Quo(a, b), b);
    }
  }

  lemma {:induction false} QuoIsDiv(a: nat, b: nat)
    requires b > 0
    ensures Quo(a, b) == a / b && Rem(a, b) == a % b
  {
    QuoRem(a, b);
    BlockUnique(a, Quo(a, b), b);
    BlockOf(a, b);
  }

  /** The 16-bit little-endian word at `at`, or 0 past the end. */
  function U16(s: seq<byte>, at: nat): (v: nat)
    ensures v < 0x1_0000
  {
    assert Pow256(2) == 0x1_0000;
    if at + 2 <= |s| then FromLittleEndian(s[at..at + 2]) else 0
  }

  /** Numbers are read from their own bytes only. */
  lemma {:induction false} SameWords(s: seq<byte>, t: seq<byte>, at: nat)
    requires |s| == |t|
    ensures at + 4 <= |s| && s[at..at + 4] == t[at..at + 4] ==> U32(s, at) == U32(t, at)
    ensures at + 2 <= |s| && s[at..at + 2] == t[at..at + 2] ==> U16(s, at) == U16(t, at)
    ensures at + 4 > |s| ==> U32(s, at) == U32(t, at)
    ensures at + 2 > |s| ==> U16(s, at) == U16(t, at)
  {
  }

  function PutU16(s: seq<byte>, at: nat, v: nat): (r: seq<byte>)
    requires at + 2 <= |s|
    ensures |r| == |s|
  {
    Splice(s, at, LittleEndian(v, 2))
  }
}
