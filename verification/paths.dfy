/** `fs_resolve_path` of src/kernel/kern_fs.c: drive prefixes, relative paths, "." and "..". Strings have no NUL. */
module Paths {
  const COMBINED: nat := 512
  const PREFIX: nat := 32
  const MAX_SEGMENTS: nat := 32

  /** What is left of a string in a buffer of `size` bytes. */
  function Fit(s: string, size: nat): (r: string)
    ensures |r| < size || r == []
    ensures |s| < size ==> r == s
  {
    if |s| < size then s else if size == 0 then "" else s[..size - 1]
  }

  predicate HasDrive(s: string) {
    |s| >= 2 && s[0] == '/' && s[1] == '/'
  }

  /** The first index from `i` on that holds no slash. */
  function SkipSlashes(s: string, i: nat): (j: nat)
    ensures i <= j && (j < |s| ==> s[j] != '/') && (i <= |s| ==> j <= |s|)
    decreases |s| - i
  {
    if i < |s| && s[i] == '/' then SkipSlashes(s, i + 1) else i
  }

  /** The first index from `i` on that holds a slash, or the length. */
  function SegmentEnd(s: string, i: nat): (j: nat)
    ensures i <= j && (j < |s| ==> s[j] == '/') && (i <= |s| ==> j <= |s|)
    ensures forall k :: i <= k < j && k < |s| ==> s[k] != '/'
    decreases |s| - i
  {
    if i < |s| && s[i] != '/' then SegmentEnd(s, i + 1) else i
  }

  /** The drive prefix of a path that has one. */
  function DriveOf(s: string): string {
    if HasDrive(s) then Fit(s[..SegmentEnd(s, 2)], PREFIX) else ""
  }

  function DefaultDrive(drive: char): string {
    ['/', '/', drive]
  }

  /** The path with the current directory or the drive put in front. */
  function Combined(path: string, cwd: string, drive: char): string {
    if HasDrive(path) then Fit(path, COMBINED)
    else if path != "" && path[0] == '/' then
      var d := if HasDrive(cwd) then DriveOf(cwd) else DefaultDrive(drive);
      d + Fit(path, COMBINED - |d|)
    else
      var c := Fit(cwd, COMBINED);
      var base := if c != "" && c[|c| - 1] != '/' && |c| < COMBINED - 1 then c + "/" else c;
      base + Fit(path, COMBINED - |base|)
  }

  // ---------------------------------------------------------------- segments

  /** One segment of the path: "." does nothing, ".." goes up, anything else goes down, at most 32 levels. */
  function Push(stack: seq<string>, seg: string): seq<string> {
    if seg == "." then stack
    else if seg == ".." then (if stack == [] then [] else stack[..|stack| - 1])
    else if |stack| < MAX_SEGMENTS then stack + [seg] else stack
  }

  function Fold(s: string, i: nat, stack: seq<string>): seq<string>
    decreases |s| - i
  {
    var j := SkipSlashes(s, i);
    if j >= |s| then stack
    else
      var k := SegmentEnd(s, j);
      if k <= i then stack else Fold(s, k, Push(stack, s[j..k]))
  }

  /** Each segment with a slash in front. */
  function Join(stack: seq<string>): string {
    if stack == [] then "" else "/" + stack[0] + Join(stack[1..])
  }

  function Assembled(prefix: string, stack: seq<string>): string {
    prefix + if stack == [] then "/" else Join(stack)
  }

  /** The canonical form of a combined path, before it is cut to the output buffer. */
  function Canonical(s: string, drive: char): string {
    if HasDrive(s) then Assembled(DriveOf(s), Fold(s, SegmentEnd(s, 2), [])) else Assembled(DefaultDrive(drive), Fold(s, 0, []))
  }

  function CwdOf(cwd: string): string {
    if cwd == "" then "//A/" else cwd
  }

  /** The whole of the resolved path. */
  function Resolved(path: string, cwd: string, drive: char): string {
    if path == "" then CwdOf(cwd) else Canonical(Combined(path, CwdOf(cwd), drive), drive)
  }

  // ------------------------------------------------------------ what it promises

  predicate CleanSegment(seg: string) {
    seg != "" && seg != "." && seg != ".." && forall k :: 0 <= k < |seg| ==> seg[k] != '/'
  }

  predicate Clean(stack: seq<string>) {
    |stack| <= MAX_SEGMENTS && forall k :: 0 <= k < |stack| ==> CleanSegment(stack[k])
  }

  /** No empty, "." or ".." segment is left. */
  lemma {:induction false} FoldClean(s: string, i: nat, stack: seq<string>)
    requires Clean(stack)
    ensures Clean(Fold(s, i, stack))
    decreases |s| - i
  {
    var j := SkipSlashes(s, i);
    if j < |s| {
      var k := SegmentEnd(s, j);
      if k > i {
        PushClean(stack, s[j..k]);
        FoldClean(s, k, Push(stack, s[j..k]));
      }
    }
  }

  lemma {:induction false} PushClean(stack: seq<string>, seg: string)
    requires Clean(stack) && seg != "" && forall k :: 0 <= k < |seg| ==> seg[k] != '/'
    ensures Clean(Push(stack, seg))
  {
  }

  /** The segments of an assembled path are the ones it was assembled from. */
  lemma {:induction false} FoldJoin(s: string, i: nat, acc: seq<string>, stack: seq<string>)
    requires Clean(acc + stack) && i <= |s| && s[i..] == Join(stack)
    ensures Fold(s, i, acc) == acc + stack
    decreases |stack|
  {
    hide Fold, Join, Clean;
    if stack == [] {
      NothingJoined(s, i, acc);
      assert acc + stack == acc;
    } else {
      var seg, k := stack[0], i + 1 + |stack[0]|;
      assert (acc + [seg]) + stack[1..] == acc + stack;
      FirstJoined(s, i, acc, stack);
      FoldJoin(s, k, acc + [seg], stack[1..]);
    }
  }

  lemma {:induction false} NothingJoined(s: string, i: nat, acc: seq<string>)
    requires i <= |s| && s[i..] == Join([])
    ensures Fold(s, i, acc) == acc
  {
    assert |s[i..]| == |s| - i;
  }

  /** One step of the fold over an assembled path. */
  lemma {:induction false} FirstJoined(s: string, i: nat, acc: seq<string>, stack: seq<string>)
    requires stack != [] && Clean(acc + stack) && i <= |s| && s[i..] == Join(stack)
    ensures var k := i + 1 + |stack[0]|; k <= |s| && s[k..] == Join(stack[1..]) && Fold(s, i, acc) == Fold(s, k, acc + [stack[0]])
  {
    hide Fold, Join, SkipSlashes, SegmentEnd;
    var seg, k := stack[0], i + 1 + |stack[0]|;
    assert CleanSegment((acc + stack)[|acc|]);
    JoinedFirst(s, i, stack);
    SegmentIs(s, i + 1, k);
    FoldStep(s, i, k, acc);
  }

  /** Where the first segment of an assembled path lies. */
  lemma {:induction false} JoinedFirst(s: string, i: nat, stack: seq<string>)
    requires stack != [] && i <= |s| && s[i..] == Join(stack)
    ensures var k := i + 1 + |stack[0]|;
            && k <= |s| && s[i] == '/' && s[i + 1..k] == stack[0] && s[k..] == Join(stack[1..])
            && (k < |s| ==> s[k] == '/') && forall j :: i < j < k ==> s[j] == stack[0][j - i - 1]
  {
    hide Join;
    assert Join(stack) + "" == Join(stack) && Join(stack[1..]) + "" == Join(stack[1..]);
    JoinedNext(s, i, stack, "");
  }

  lemma {:induction false} FoldStep(s: string, i: nat, k: nat, acc: seq<string>)
    requires i + 1 < k <= |s| && s[i] == '/' && SkipSlashes(s, i + 1) == i + 1 && SegmentEnd(s, i + 1) == k
    ensures Fold(s, i, acc) == Fold(s, k, Push(acc, s[i + 1..k]))
  {
    assert SkipSlashes(s, i) == SkipSlashes(s, i + 1);
  }

  lemma {:induction false} SegmentIs(s: string, i: nat, k: nat)
    requires i < k <= |s| && (forall j :: i <= j < k ==> s[j] != '/') && (k < |s| ==> s[k] == '/')
    ensures SkipSlashes(s, i) == i && SegmentEnd(s, i) == k
  {
    EndIs(s, i, k);
  }

  lemma {:induction false} EndIs(s: string, i: nat, k: nat)
    requires i <= k <= |s| && (forall j :: i <= j < k ==> s[j] != '/') && (k < |s| ==> s[k] == '/')
    ensures SegmentEnd(s, i) == k
    decreases k - i
  {
    if i < k { EndIs(s, i + 1, k); }
  }

  /** A drive prefix: two slashes, then none. */
  predicate DrivePrefix(p: string) {
    HasDrive(p) && |p| < PREFIX && forall k :: 2 <= k < |p| ==> p[k] != '/'
  }

  lemma {:induction false} CanonicalForm(s: string, drive: char)
    requires drive != '/'
    ensures exists p, stack :: DrivePrefix(p) && Clean(stack) && Canonical(s, drive) == Assembled(p, stack)
  {
    if HasDrive(s) {
      FoldClean(s, SegmentEnd(s, 2), []);
      assert DrivePrefix(DriveOf(s));
    } else {
      FoldClean(s, 0, []);
      assert DrivePrefix(DefaultDrive(drive));
    }
  }

  /** A path in canonical form is its own canonical form. */
  lemma {:induction false} AssembledFixed(p: string, stack: seq<string>, drive: char)
    requires DrivePrefix(p) && Clean(stack)
    ensures HasDrive(Assembled(p, stack)) && Canonical(Assembled(p, stack), drive) == Assembled(p, stack)
  {
    var s := Assembled(p, stack);
    assert s[..|p|] == p && s[|p|] == '/';
    EndIs(s, 2, |p|);
    assert Fit(s[..|p|], PREFIX) == p;
    if stack == [] {
      assert s[|p|..] == "/";
      assert SkipSlashes(s, |p|) == |s|;
    } else {
      assert s[|p|..] == Join(stack);
      assert [] + stack == stack;
      FoldJoin(s, |p|, [], stack);
    }
  }

  predicate CanonicalPath(s: string, drive: char) {
    HasDrive(s) && |s| < COMBINED && Canonical(s, drive) == s
  }

  /** Resolving again changes nothing, as long as the whole path fits the internal buffer. */
  lemma {:induction false} ResolveTwice(path: string, cwd: string, cwd2: string, drive: char)
    requires drive != '/' && (path == "" ==> CanonicalPath(CwdOf(cwd), drive))
    requires |Resolved(path, cwd, drive)| < COMBINED
    ensures Resolved(Resolved(path, cwd, drive), cwd2, drive) == Resolved(path, cwd, drive)
  {
    hide Fold, Join, SegmentEnd;
    var r := Resolved(path, cwd, drive);
    if path != "" {
      var s := Combined(path, CwdOf(cwd), drive);
      CanonicalForm(s, drive);
      var p, stack :| DrivePrefix(p) && Clean(stack) && Canonical(s, drive) == Assembled(p, stack);
      AssembledFixed(p, stack, drive);
    }
    assert HasDrive(r) && Canonical(r, drive) == r;
  }

  // ------------------------------------------------ the plain stack of segments

  function Segments(s: string, i: nat): seq<string>
    decreases |s| - i
  {
    var j := SkipSlashes(s, i);
    if j >= |s| then []
    else var k := SegmentEnd(s, j); if k <= i then [] else [s[j..k]] + Segments(s, k)
  }

  /** Without a limit on the depth. */
  function Plain(segs: seq<string>, stack: seq<string>): seq<string> {
    if segs == [] then stack
    else
      var seg := segs[0];
      Plain(segs[1..], if seg == "." then stack else if seg == ".." then (if stack == [] then [] else stack[..|stack| - 1]) else stack + [seg])
  }

  /** The stack never holds more than 32 segments. */
  predicate Shallow(segs: seq<string>, stack: seq<string>) {
    |stack| <= MAX_SEGMENTS &&
    (segs == [] ||
      var seg := segs[0];
      Shallow(segs[1..], if seg == "." then stack else if seg == ".." then (if stack == [] then [] else stack[..|stack| - 1]) else stack + [seg]))
  }

  /** With at most 32 live segments at any time, the result is the plain stack fold over the segments. */
  lemma {:induction false} FoldIsPlain(s: string, i: nat, stack: seq<string>)
    requires Shallow(Segments(s, i), stack)
    ensures Fold(s, i, stack) == Plain(Segments(s, i), stack)
    decreases |s| - i
  {
    var j := SkipSlashes(s, i);
    if j < |s| {
      var k := SegmentEnd(s, j);
      if k > i {
        var rest := Segments(s, k);
        assert ([s[j..k]] + rest)[1..] == rest;
        assert Shallow(rest, if s[j..k] == "." then stack else if s[j..k] == ".." then (if stack == [] then [] else stack[..|stack| - 1]) else stack + [s[j..k]]);
        ShallowNow(rest, stack + [s[j..k]]);
        FoldIsPlain(s, k, Push(stack, s[j..k]));
      }
    }
  }

  lemma {:induction false} ShallowNow(segs: seq<string>, stack: seq<string>)
    ensures Shallow(segs, stack) ==> |stack| <= MAX_SEGMENTS
  {
  }

  /** A longest stretch without a slash, from `i` on. */
  predicate Stretch(s: string, i: nat, seg: string, at: nat) {
    && i <= at < at + |seg| <= |s| && s[at..at + |seg|] == seg && (forall j :: 0 <= j < |seg| ==> seg[j] != '/')
    && (at == i || s[at - 1] == '/') && (at + |seg| == |s| || s[at + |seg|] == '/')
  }

  predicate Inside(at: nat, seg: string, x: int) {
    at <= x < at + |seg|
  }

  /** The segments of a string are its longest stretches without a slash, in order, and every other character is one. */
  lemma {:induction false} SegmentsPlaced(s: string, i: nat) returns (at: seq<nat>)
    requires i <= |s|
    ensures |at| == |Segments(s, i)|
    ensures forall k :: 0 <= k < |at| ==> Stretch(s, i, Segments(s, i)[k], at[k])
    ensures forall k, l :: 0 <= k < l < |at| ==> at[k] + |Segments(s, i)[k]| < at[l]
    ensures forall x :: i <= x < |s| && s[x] != '/' ==> exists k :: 0 <= k < |at| && Inside(at[k], Segments(s, i)[k], x)
    decreases |s| - i
  {
    var j := SkipSlashes(s, i);
    SkippedAll(s, i);
    at := [];
    if j < |s| {
      var k := SegmentEnd(s, j);
      EndAfter(s, j);
      var rest := SegmentsPlaced(s, k);
      at := [j] + rest;
      hide Segments, SkipSlashes, SegmentEnd, Stretch, Inside;
      SegmentsStep(s, i, j, k);
      AllStretches(s, i, j, k, s[j..k], Segments(s, k), rest);
      AllInside(s, i, j, k, s[j..k], Segments(s, k), rest);
    }
  }

  lemma {:induction false} AllStretches(s: string, i: nat, j: nat, k: nat, seg: string, segs: seq<string>, rest: seq<nat>)
    requires i <= j < k <= |s| && |segs| == |rest| && seg == s[j..k] && (k < |s| ==> s[k] == '/')
    requires (forall x :: i <= x < j ==> s[x] == '/') && (forall x :: j <= x < k ==> s[x] != '/')
    requires forall m :: 0 <= m < |rest| ==> Stretch(s, k, segs[m], rest[m])
    requires forall m, l :: 0 <= m < l < |rest| ==> rest[m] + |segs[m]| < rest[l]
    ensures forall m :: 0 <= m < |rest| + 1 ==> Stretch(s, i, ([seg] + segs)[m], ([j] + rest)[m])
    ensures forall m, l :: 0 <= m < l < |rest| + 1 ==> ([j] + rest)[m] + |([seg] + segs)[m]| < ([j] + rest)[l]
  {
    hide Stretch;
    StretchFirst(s, i, j, k);
    forall m | 0 <= m < |rest| ensures Stretch(s, i, segs[m], rest[m]) && rest[m] > k {
      StretchLater(s, i, k, segs[m], rest[m]);
    }
    forall m, l | 0 <= m < l < |rest| + 1 ensures ([j] + rest)[m] + |([seg] + segs)[m]| < ([j] + rest)[l] {
      assert ([j] + rest)[l] == rest[l - 1];
      if m > 0 { assert ([j] + rest)[m] == rest[m - 1] && ([seg] + segs)[m] == segs[m - 1]; }
    }
  }

  lemma {:induction false} AllInside(s: string, i: nat, j: nat, k: nat, seg: string, segs: seq<string>, rest: seq<nat>)
    requires i <= j < k <= |s| && |segs| == |rest| && seg == s[j..k] && forall x :: i <= x < j ==> s[x] == '/'
    requires forall x :: k <= x < |s| && s[x] != '/' ==> exists m :: 0 <= m < |rest| && Inside(rest[m], segs[m], x)
    ensures forall x :: i <= x < |s| && s[x] != '/' ==> exists m :: 0 <= m < |rest| + 1 && Inside(([j] + rest)[m], ([seg] + segs)[m], x)
  {
    hide Inside;
    forall x | i <= x < |s| && s[x] != '/' ensures exists m :: 0 <= m < |rest| + 1 && Inside(([j] + rest)[m], ([seg] + segs)[m], x) {
      if x < k {
        InsideFirst(s, j, k, x);
        assert Inside(([j] + rest)[0], ([seg] + segs)[0], x);
      } else {
        var m :| 0 <= m < |rest| && Inside(rest[m], segs[m], x);
        assert Inside(([j] + rest)[m + 1], ([seg] + segs)[m + 1], x);
      }
    }
  }

  lemma {:induction false} SegmentsStep(s: string, i: nat, j: nat, k: nat)
    requires i <= j < k <= |s| && SkipSlashes(s, i) == j && SegmentEnd(s, j) == k
    ensures Segments(s, i) == [s[j..k]] + Segments(s, k)
  {
  }

  lemma {:induction false} StretchFirst(s: string, i: nat, j: nat, k: nat)
    requires i <= j < k <= |s| && (forall x :: i <= x < j ==> s[x] == '/') && (forall x :: j <= x < k ==> s[x] != '/')
    requires k < |s| ==> s[k] == '/'
    ensures Stretch(s, i, s[j..k], j)
  {
  }

  lemma {:induction false} StretchLater(s: string, i: nat, k: nat, seg: string, at: nat)
    requires Stretch(s, k, seg, at) && i < k && (k < |s| ==> s[k] == '/')
    ensures Stretch(s, i, seg, at) && at > k
  {
    assert s[at] == s[at..at + |seg|][0];
  }

  lemma {:induction false} InsideFirst(s: string, j: nat, k: nat, x: nat)
    requires j <= x < k <= |s|
    ensures Inside(j, s[j..k], x)
  {
  }

  lemma {:induction false} SkippedAll(s: string, i: nat)
    requires i <= |s|
    ensures forall x :: i <= x < SkipSlashes(s, i) ==> s[x] == '/'
    decreases |s| - i
  {
    if i < |s| && s[i] == '/' { SkippedAll(s, i + 1); }
  }

  lemma {:induction false} EndAfter(s: string, j: nat)
    requires j < |s| && s[j] != '/'
    ensures j < SegmentEnd(s, j) <= |s|
  {
  }

  // ---------------------------------------------- the result, in terms of path and directory

  lemma {:induction false} Shifted(a: string, b: string, i: nat)
    requires i <= |b|
    ensures SkipSlashes(a + b, |a| + i) == |a| + SkipSlashes(b, i) && SegmentEnd(a + b, |a| + i) == |a| + SegmentEnd(b, i)
    decreases |b| - i
  {
    if i < |b| { Shifted(a, b, i + 1); }
  }

  /** Segments do not depend on what is in front. */
  lemma {:induction false} SegmentsShifted(a: string, b: string, i: nat)
    requires i <= |b|
    ensures Segments(a + b, |a| + i) == Segments(b, i)
    decreases |b| - i
  {
    hide SkipSlashes, SegmentEnd, Segments;
    Shifted(a, b, i);
    var j := SkipSlashes(b, i);
    if j >= |b| {
      SegmentsNone(b, i);
      SegmentsNone(a + b, |a| + i);
    } else {
      Shifted(a, b, j);
      var k := SegmentEnd(b, j);
      EndAfter(b, j);
      SegmentsShifted(a, b, k);
      SegmentsStep(b, i, j, k);
      SegmentsStep(a + b, |a| + i, |a| + j, |a| + k);
      assert (a + b)[|a| + j..|a| + k] == b[j..k];
    }
  }

  lemma {:induction false} SegmentsNone(s: string, i: nat)
    requires SkipSlashes(s, i) >= |s|
    ensures Segments(s, i) == []
  {
  }

  /** A leading slash is no segment. */
  lemma {:induction false} SegmentsSlash(path: string)
    ensures Segments("/" + path, 0) == Segments(path, 0)
  {
    Shifted("/", path, 0);
    SegmentsShifted("/", path, 0);
    assert SkipSlashes("/" + path, 0) == SkipSlashes("/" + path, 1);
    var j := SkipSlashes("/" + path, 0);
    if j < |"/" + path| { EndAfter("/" + path, j); }
  }

  /** The segments of joined clean segments, and of what follows after a slash. */
  lemma {:induction false} SegmentsJoin(s: string, i: nat, stack: seq<string>, tail: string)
    requires i <= |s| && s[i..] == Join(stack) + tail && (tail == "" || tail[0] == '/')
    requires forall k :: 0 <= k < |stack| ==> CleanSegment(stack[k])
    ensures i + |Join(stack)| <= |s| && Segments(s, i) == stack + Segments(s, i + |Join(stack)|)
    decreases |stack|
  {
    hide Join, Segments, CleanSegment;
    if stack == [] {
      NoJoin("");
      assert [] + Segments(s, i) == Segments(s, i);
    } else {
      SegmentFirst(s, i, stack, tail);
      SegmentsJoin(s, i + 1 + |stack[0]|, stack[1..], tail);
      assert stack == [stack[0]] + stack[1..];
    }
  }

  lemma {:induction false} SegmentFirst(s: string, i: nat, stack: seq<string>, tail: string)
    requires stack != [] && i <= |s| && s[i..] == Join(stack) + tail && (tail == "" || tail[0] == '/') && CleanSegment(stack[0])
    ensures var k := i + 1 + |stack[0]|;
            && k <= |s| && Segments(s, i) == [stack[0]] + Segments(s, k) && s[k..] == Join(stack[1..]) + tail
            && |Join(stack)| == 1 + |stack[0]| + |Join(stack[1..])|
  {
    hide Join, Segments, SkipSlashes, SegmentEnd;
    var k := i + 1 + |stack[0]|;
    JoinedNext(s, i, stack, tail);
    SegmentIs(s, i + 1, k);
    SkipOne(s, i);
    SegmentsStep(s, i, i + 1, k);
  }

  lemma {:induction false} SkipOne(s: string, i: nat)
    requires i < |s| && s[i] == '/'
    ensures SkipSlashes(s, i) == SkipSlashes(s, i + 1)
  {
  }

  lemma {:induction false} JoinedNext(s: string, i: nat, stack: seq<string>, tail: string)
    requires stack != [] && i <= |s| && s[i..] == Join(stack) + tail && (tail == "" || tail[0] == '/')
    ensures |Join(stack)| == 1 + |stack[0]| + |Join(stack[1..])|
    ensures var k := i + 1 + |stack[0]|;
            && k <= |s| && s[i] == '/' && s[i + 1..k] == stack[0] && s[k..] == Join(stack[1..]) + tail
            && (k < |s| ==> s[k] == '/') && forall j :: i < j < k ==> s[j] == stack[0][j - i - 1]
  {
    var rest := Join(stack[1..]) + tail;
    JoinSplit(stack, tail);
    RestStart(stack[1..], tail);
    hide Join;
    Peeled(s, i, stack[0], rest);
  }

  lemma {:induction false} JoinSplit(stack: seq<string>, tail: string)
    requires stack != []
    ensures Join(stack) + tail == "/" + (stack[0] + (Join(stack[1..]) + tail)) && |Join(stack)| == 1 + |stack[0]| + |Join(stack[1..])|
  {
  }

  lemma {:induction false} RestStart(stack: seq<string>, tail: string)
    requires tail == "" || tail[0] == '/'
    ensures Join(stack) + tail == "" || (Join(stack) + tail)[0] == '/'
  {
  }

  lemma {:induction false} Peeled(s: string, i: nat, seg: string, rest: string)
    requires i <= |s| && s[i..] == "/" + (seg + rest) && (rest == "" || rest[0] == '/')
    ensures var k := i + 1 + |seg|;
            && k <= |s| && s[i] == '/' && s[i + 1..k] == seg && s[k..] == rest
            && (k < |s| ==> s[k] == '/') && forall j :: i < j < k ==> s[j] == seg[j - i - 1]
  {
    var k := i + 1 + |seg|;
    assert s[i] == s[i..][0] && s[i + 1..] == s[i..][1..] == seg + rest;
    assert s[i + 1..k] == s[i + 1..][..|seg|] == seg;
    assert s[k..] == s[i + 1..][|seg|..] == rest;
    assert k < |s| ==> s[k] == s[k..][0];
  }

  /** A canonical directory ends in a slash exactly at the root of its drive. */
  lemma {:induction false} DirectoryEnd(p: string, dirs: seq<string>)
    requires DrivePrefix(p) && Clean(dirs)
    ensures var cwd := Assembled(p, dirs);
            (if cwd[|cwd| - 1] != '/' then cwd + "/" else cwd) == p + Join(dirs) + "/"
  {
    if dirs != [] {
      var n := |dirs| - 1;
      assert dirs == dirs[..n] + [dirs[n]];
      JoinOne(dirs[..n], dirs[n]);
      assert CleanSegment(dirs[n]);
      var cwd := Assembled(p, dirs);
      assert cwd[|cwd| - 1] == dirs[n][|dirs[n]| - 1];
    }
  }

  /** The canonical form of a drive prefix, and what follows it from a slash on. */
  lemma {:induction false} CanonicalIs(p: string, rest: string, drive: char)
    requires DrivePrefix(p) && (rest == "" || rest[0] == '/') && Shallow(Segments(rest, 0), [])
    ensures HasDrive(p + rest) && Canonical(p + rest, drive) == Assembled(p, Plain(Segments(rest, 0), []))
  {
    hide Segments, Fold, Shallow, Plain;
    var s := p + rest;
    assert s[..|p|] == p && (rest != "" ==> s[|p|] == '/');
    EndIs(s, 2, |p|);
    assert Fit(s[..|p|], PREFIX) == p;
    SegmentsShifted(p, rest, 0);
    FoldIsPlain(s, |p|, []);
  }

  /** A relative path: its segments are applied to those of the current directory, on the directory's drive. */
  lemma {:induction false} RelativeIs(path: string, p: string, dirs: seq<string>, drive: char)
    requires path != "" && path[0] != '/' && DrivePrefix(p) && Clean(dirs)
    requires |p| + |Join(dirs)| + 1 + |path| < 512 && Shallow(dirs + Segments(path, 0), [])
    ensures Resolved(path, Assembled(p, dirs), drive) == Assembled(p, Plain(dirs + Segments(path, 0), []))
  {
    hide Segments, Shallow, Plain, Join, Canonical;
    var cwd, rest := Assembled(p, dirs), Join(dirs) + "/" + path;
    NoJoin(p);
    DirectoryEnd(p, dirs);
    assert p + Join(dirs) + "/" + path == p + rest;
    assert rest[0..] == Join(dirs) + ("/" + path);
    assert rest[0] == '/' by { if dirs != [] { JoinStart(dirs); } else { NoJoin(""); } }
    SegmentsJoin(rest, 0, dirs, "/" + path);
    SegmentsShifted(Join(dirs), "/" + path, 0);
    assert Join(dirs) + ("/" + path) == rest;
    SegmentsSlash(path);
    CanonicalIs(p, rest, drive);
  }

  lemma {:induction false} JoinStart(dirs: seq<string>)
    requires dirs != []
    ensures Join(dirs) != "" && Join(dirs)[0] == '/'
  {
  }

  /** A path from the root: its own segments, on the directory's drive. */
  lemma {:induction false} RootedIs(path: string, p: string, dirs: seq<string>, drive: char)
    requires path != "" && path[0] == '/' && (|path| == 1 || path[1] != '/') && DrivePrefix(p) && Clean(dirs)
    requires |p| + |path| < 512 && Shallow(Segments(path, 0), [])
    ensures Resolved(path, Assembled(p, dirs), drive) == Assembled(p, Plain(Segments(path, 0), []))
  {
    hide Segments, Shallow, Plain, Join, Canonical;
    var cwd := Assembled(p, dirs);
    assert cwd[..|p|] == p && cwd[|p|] == '/' by { if dirs != [] { JoinStart(dirs); } }
    EndIs(cwd, 2, |p|);
    CanonicalIs(p, path, drive);
  }

  /** A path with a drive: its own drive and segments, whatever the current directory. */
  lemma {:induction false} DriveIs(p: string, rest: string, cwd: string, drive: char)
    requires DrivePrefix(p) && (rest == "" || rest[0] == '/')
    requires |p| + |rest| < 512 && Shallow(Segments(rest, 0), [])
    ensures Resolved(p + rest, cwd, drive) == Assembled(p, Plain(Segments(rest, 0), []))
  {
    hide Segments, Shallow, Plain, Canonical;
    CanonicalIs(p, rest, drive);
  }

  /** What is put together: the drive, and each segment behind a slash; a single slash when there is none. */
  lemma {:induction false} AssembledIs(p: string, stack: seq<string>)
    ensures stack == [] ==> Assembled(p, stack) == p + "/"
    ensures |stack| == 1 ==> Assembled(p, stack) == p + "/" + stack[0]
    ensures |stack| > 1 ==> Assembled(p, stack) == Assembled(p, stack[..|stack| - 1]) + "/" + stack[|stack| - 1]
  {
    if stack != [] {
      var n := |stack| - 1;
      assert stack == stack[..n] + [stack[n]];
      JoinOne(stack[..n], stack[n]);
      NoJoin(p);
      assert p + (Join(stack[..n]) + "/" + stack[n]) == (p + Join(stack[..n])) + "/" + stack[n];
    }
  }

  // ----------------------------------------------------------------- the method

  /** The scan for the end of the drive prefix. */
  method DriveEnd(s: string) returns (k: nat)
    requires HasDrive(s)
    ensures k == SegmentEnd(s, 2)
  {
    k := 2;
    while k < |s| && s[k] != '/'
      invariant 2 <= k <= |s| && forall j :: 2 <= j < k ==> s[j] != '/'
    {
      k := k + 1;
    }
    EndIs(s, 2, k);
  }

  /** The segment stack. */
  method Tokenize(s: string, start: nat) returns (stack: seq<string>)
    requires start <= |s|
    ensures stack == Fold(s, start, [])
  {
    hide SegmentEnd, SkipSlashes, Push;
    var scan := start;
    stack := [];
    while scan < |s|
      invariant scan <= |s| && Fold(s, start, []) == Fold(s, scan, stack)
      decreases |s| - scan
    {
      var j := NextSegment(s, scan);
      if j >= |s| {
        return;
      }
      var k := NextSlash(s, j);
      stack := Push(stack, s[j..k]);
      scan := k;
    }
    FoldEnd(s, scan, stack);
  }

  lemma {:induction false} FoldEnd(s: string, i: nat, stack: seq<string>)
    requires i >= |s|
    ensures Fold(s, i, stack) == stack
  {
  }

  method NextSegment(s: string, i: nat) returns (j: nat)
    requires i <= |s|
    ensures j == SkipSlashes(s, i)
  {
    j := i;
    while j < |s| && s[j] == '/'
      invariant j <= |s| && SkipSlashes(s, i) == SkipSlashes(s, j)
    {
      j := j + 1;
    }
  }

  method NextSlash(s: string, i: nat) returns (j: nat)
    requires i < |s| && s[i] != '/'
    ensures j == SegmentEnd(s, i) > i && j <= |s|
  {
    j := i;
    while j < |s| && s[j] != '/'
      invariant i <= j <= |s| && SegmentEnd(s, i) == SegmentEnd(s, j)
    {
      j := j + 1;
    }
  }

  /** Appending to a buffer of `size` bytes. */
  lemma {:induction false} FitAppend(a: string, b: string, size: nat)
    requires size > 0
    ensures var f := Fit(a, size); Fit(a + b, size) == if |f| + |b| >= size then f + b[..size - 1 - |f|] else f + b
  {
    var f := Fit(a, size);
    if |a| < size {
      if |a| + |b| >= size { assert (a + b)[..size - 1] == a + b[..size - 1 - |a|]; }
    } else {
      assert (a + b)[..size - 1] == a[..size - 1];
      if |b| > 0 { assert f + b[..0] == f; } else { assert f + b == f; }
    }
  }

  lemma {:induction false} JoinOne(stack: seq<string>, seg: string)
    ensures Join(stack + [seg]) == Join(stack) + "/" + seg
  {
    if stack != [] {
      assert (stack + [seg])[1..] == stack[1..] + [seg];
      JoinOne(stack[1..], seg);
    }
  }

  /** The output loop: each piece as far as it fits. */
  method Assemble(prefix: string, stack: seq<string>, size: nat) returns (out: string)
    requires size > 0
    ensures out == Fit(Assembled(prefix, stack), size)
  {
    hide Fit, Join;
    FitAppend(prefix, "/", size);
    FitLength(prefix, size);
    out := Fit(prefix, size);
    if stack == [] {
      if |out| < size - 1 {
        out := out + "/";
      } else {
        assert "/"[..0] == "" && out + "" == out;
      }
      return;
    }
    NoJoin(prefix);
    var i := 0;
    while i < |stack|
      invariant i <= |stack| && out == Fit(prefix + Join(stack[..i]), size) && |out| < size
    {
      assert stack[..i + 1] == stack[..i] + [stack[i]];
      JoinOne(stack[..i], stack[i]);
      var done := prefix + Join(stack[..i]);
      assert prefix + (Join(stack[..i]) + "/" + stack[i]) == done + "/" + stack[i];
      FitAppend(done, "/", size);
      FitAppend(done + "/", stack[i], size);
      FitLength(done + "/", size);
      FitLength(done + "/" + stack[i], size);
      assert "/"[..0] == "" && out + "" == out;
      if |out| < size - 1 {
        out := out + "/";
      }
      var len := if |out| + |stack[i]| >= size then size - 1 - |out| else |stack[i]|;
      assert stack[i][..|stack[i]|] == stack[i];
      out := out + stack[i][..len];
      i := i + 1;
    }
    assert stack[..|stack|] == stack;
  }

  lemma {:induction false} NoJoin(prefix: string)
    ensures prefix + Join([]) == prefix
  {
  }

  lemma {:induction false} FitLength(s: string, size: nat)
    requires size > 0
    ensures |Fit(s, size)| < size
  {
  }

  /** The first half of `fs_resolve_path`: the combined path. */
  method Combine(path: string, cwd: string, drive: char) returns (combined: string)
    requires path != ""
    ensures combined == Combined(path, cwd, drive)
  {
    hide SegmentEnd, Fit;
    if HasDrive(path) {
      combined := Fit(path, COMBINED);
    } else if path[0] == '/' {
      var prefix := DefaultDrive(drive);
      if HasDrive(cwd) {
        var k := DriveEnd(cwd);
        prefix := Fit(cwd[..k], PREFIX);
      }
      combined := prefix + Fit(path, COMBINED - |prefix|);
    } else {
      var base := Fit(cwd, COMBINED);
      if base != "" && base[|base| - 1] != '/' && |base| < COMBINED - 1 {
        base := base + "/";
      }
      combined := base + Fit(path, COMBINED - |base|);
    }
  }

  /** `fs_resolve_path` */
  method ResolvePath(path: string, cwd: string, drive: char, size: nat) returns (out: string)
    ensures out == if size == 0 then "" else Fit(Resolved(path, cwd, drive), size)
  {
    hide Fold, SegmentEnd, Assembled, Combined, Fit;
    if size == 0 {
      return "";
    }
    var current := if cwd == "" then "//A/" else cwd;
    if path == "" {
      return Fit(current, size);
    }
    var combined := Combine(path, current, drive);
    var prefix, scan := DefaultDrive(drive), 0;
    if HasDrive(combined) {
      scan := DriveEnd(combined);
      prefix := Fit(combined[..scan], PREFIX);
    }
    var stack := Tokenize(combined, scan);
    out := Assemble(prefix, stack, size);
  }
}
