/** Round-robin scheduling of src/kernel/kern_sched.c on the list of tasks in ring order, the current task first. */
module SchedSpec {
  import opened Options

  const READY := 0
  const RUNNING := 1
  const BLOCKED := 2
  const DEAD := 3

  /** A task: its address, thread number, state and the address of its process. */
  datatype Task = Task(addr: nat, tid: int, state: int, proc: nat)

  predicate Runnable(t: Task) {
    t.state <= RUNNING
  }

  predicate Reapable(t: Task) {
    t.state == DEAD && t.tid != 0
  }

  /** A task the scan stops at: runnable, and not the idle thread unless that was woken. */
  predicate Eligible(t: Task, wake: bool) {
    Runnable(t) && (t.tid != 0 || wake)
  }

  ghost predicate NoneEligible(l: seq<Task>, wake: bool) {
    forall i :: 0 <= i < |l| ==> !Eligible(l[i], wake)
  }

  /** The tasks that a scan over `l` leaves in the ring. */
  ghost function Kept(l: seq<Task>): (r: seq<Task>)
    ensures |r| <= |l|
    ensures forall i :: 0 <= i < |r| ==> r[i] in l && !Reapable(r[i])
  {
    if l == [] then [] else Kept(l[..|l| - 1]) + if Reapable(l[|l| - 1]) then [] else [l[|l| - 1]]
  }

  ghost function Reaped(l: seq<Task>): seq<Task> {
    if l == [] then [] else Reaped(l[..|l| - 1]) + if Reapable(l[|l| - 1]) then [l[|l| - 1]] else []
  }

  ghost function FirstEligible(l: seq<Task>, wake: bool): (p: nat)
    ensures p <= |l| && NoneEligible(l[..p], wake) && (p < |l| ==> Eligible(l[p], wake))
  {
    if l == [] || Eligible(l[0], wake) then 0 else
    assert forall i :: 0 < i <= FirstEligible(l[1..], wake) ==> l[i - 1 + 1] == l[i];
    var p := FirstEligible(l[1..], wake);
    assert l[..p + 1] == [l[0]] + l[1..][..p];
    p + 1
  }

  /** The last runnable task of `l`, or `|l|`. */
  ghost function LastRunnable(l: seq<Task>): (j: nat)
    ensures j <= |l| && (j < |l| ==> Runnable(l[j]))
    ensures forall i :: j < i < |l| ==> !Runnable(l[i])
    ensures j == |l| ==> forall i :: 0 <= i < |l| ==> !Runnable(l[i])
  {
    if l == [] then 0
    else if Runnable(l[|l| - 1]) then |l| - 1
    else var j := LastRunnable(l[..|l| - 1]); if j == |l| - 1 then |l| else j
  }

  ghost function Rotate(l: seq<Task>, j: nat): seq<Task>
    requires j <= |l|
  {
    l[j..] + l[..j]
  }

  /** How far `sched_run_next` scans from the current task: up to the first eligible task, or all the way round. */
  ghost function Scanned(l: seq<Task>, wake: bool): (n: nat)
    requires l != []
    ensures n < |l|
  {
    FirstEligible(l[1..], wake)
  }

  /** The ring after the scan has unlinked the dead tasks it passed, still starting at the old current task. */
  ghost function AfterScan(l: seq<Task>, n: nat): seq<Task>
    requires n < |l|
  {
    [l[0]] + Kept(l[1..n + 1]) + l[n + 1..]
  }

  /** `sched_run_next`: the new ring, starting at the task that runs next. */
  ghost function RunNext(l: seq<Task>, wake: bool): (r: seq<Task>)
    requires l != []
    ensures r != []
  {
    var n := Scanned(l, wake);
    var ring := AfterScan(l, n);
    if n < |l| - 1 then Rotate(ring, 1 + |Kept(l[1..n + 1])|)
    else if Runnable(l[0]) then ring
    else var j := LastRunnable(ring); if j < |ring| then Rotate(ring, j) else ring
  }

  // ------------------------------------------------------------- progress

  ghost predicate AnyRunnable(l: seq<Task>) {
    exists i :: 0 <= i < |l| && Runnable(l[i])
  }

  lemma {:induction false} KeptRunnable(l: seq<Task>, t: Task)
    requires t in l && !Reapable(t)
    ensures t in Kept(l)
  {
    if t != l[|l| - 1] {
      KeptRunnable(l[..|l| - 1], t);
    }
  }

  /** If anything can run, what is chosen can run. */
  lemma {:induction false} ChosenRunnable(l: seq<Task>, wake: bool)
    requires l != [] && AnyRunnable(l)
    ensures Runnable(RunNext(l, wake)[0])
  {
    var n := Scanned(l, wake);
    var ring := AfterScan(l, n);
    if n < |l| - 1 {
      var m := 1 + |Kept(l[1..n + 1])|;
      assert ring[m] == l[n + 1] == l[1..][n];
    } else if !Runnable(l[0]) {
      StillRunnable(l, n);
    }
  }

  /** A full scan leaves every runnable task in the ring. */
  lemma {:induction false} StillRunnable(l: seq<Task>, n: nat)
    requires n < |l| && n + 1 == |l| && AnyRunnable(l) && !Runnable(l[0])
    ensures AnyRunnable(AfterScan(l, n))
  {
    hide Kept;
    var i :| 0 <= i < |l| && Runnable(l[i]);
    assert l[1..n + 1][i - 1] == l[i];
    KeptRunnable(l[1..n + 1], l[i]);
    var j :| 0 <= j < |Kept(l[1..n + 1])| && Kept(l[1..n + 1])[j] == l[i];
    assert AfterScan(l, n)[1 + j] == l[i];
  }

  /** A runnable idle thread is passed over only when it was not woken and the chosen task can run too. */
  lemma {:induction false} IdlePassedOver(l: seq<Task>, wake: bool, q: nat)
    requires 0 < q < |l| && l[q].tid == 0 && Runnable(l[q])
    requires RunNext(l, wake)[0].tid != 0
    ensures Runnable(RunNext(l, wake)[0])
    ensures q <= Scanned(l, wake) ==> !wake
  {
    assert Runnable(l[q]);
    ChosenRunnable(l, wake);
    var n := Scanned(l, wake);
    if q <= n {
      assert l[1..][..n][q - 1] == l[q];
    }
  }

  /** The tasks a scan unlinks are the dead ones, other than thread 0. */
  lemma {:induction false} ReapedAre(l: seq<Task>)
    ensures |Reaped(l)| + |Kept(l)| == |l|
    ensures forall t :: t in Reaped(l) <==> t in l && t.state == 3 && t.tid != 0
  {
    if l != [] {
      var rest, t := l[..|l| - 1], l[|l| - 1];
      ReapedAre(rest);
      assert l == rest + [t];
    }
  }

  // --------------------------------------------------- the choice, task by task

  /** The scan stops at `stop`, or at nothing when that is `|l|`: at a task that can run, other than thread 0 unless
      that was flagged. */
  ghost predicate StopsAt(l: seq<Task>, wake: bool, stop: nat) {
    && 0 < stop <= |l|
    && (forall j :: 0 < j < stop ==> l[j].state > 1 || (l[j].tid == 0 && !wake))
    && (stop < |l| ==> l[stop].state <= 1 && (l[stop].tid != 0 || wake))
  }

  /** The scan has unlinked task `j`: it was dead, not thread 0, and passed before the stop. */
  predicate Unlinked(l: seq<Task>, stop: nat, j: nat)
    requires j < |l|
  {
    0 < j < stop && l[j].state == 3 && l[j].tid != 0
  }

  /** Going round from `c`, position `x` comes before `y`. */
  predicate Before(c: int, x: int, y: int) {
    if x >= c then y < c || x < y else y < c && x < y
  }

  /** The new ring, task by task: `pos` lists where its tasks were. */
  lemma {:induction false} NextRing(l: seq<Task>, wake: bool, stop: nat) returns (pos: seq<nat>)
    requires l != [] && StopsAt(l, wake, stop)
    ensures |pos| == |RunNext(l, wake)| > 0
    ensures forall k :: 0 <= k < |pos| ==> pos[k] < |l| && RunNext(l, wake)[k] == l[pos[k]]
    ensures forall a, b :: 0 <= a < b < |pos| ==> Before(pos[0], pos[a], pos[b])
    ensures forall j: nat :: j < |l| ==> (j in pos <==> !Unlinked(l, stop, j))
    ensures stop < |l| ==> pos[0] == stop
    ensures stop == |l| && l[0].state <= 1 ==> pos[0] == 0
    ensures stop == |l| && l[0].state > 1 ==>
              if exists q :: 0 < q < |l| && l[q].state <= 1
              then l[pos[0]].state <= 1 && forall j :: pos[0] < j < |l| ==> l[j].state > 1
              else pos[0] == 0
  {
    hide Kept, AfterScan, LastRunnable, Places, RunNext, Scanned, Unlinked, Before;
    StopIsScanned(l, wake, stop);
    var ring, at := AfterScan(l, stop - 1), Places(l, stop - 1);
    PlacesOf(l, stop - 1);
    var m := RunNextTurn(l, wake);
    pos := at[m..] + at[..m];
    Turned(at, m);
    if stop == |l| && !Runnable(l[0]) { IdleChosen(l, ring, at, m); }
  }

  /** The new ring is what the scan left, turned. */
  lemma {:induction false} RunNextTurn(l: seq<Task>, wake: bool) returns (m: nat)
    requires l != []
    ensures var n := Scanned(l, wake);
            var ring := AfterScan(l, n);
            && m < |ring| && RunNext(l, wake) == ring[m..] + ring[..m]
            && (n < |l| - 1 ==> m == 1 + |Kept(l[1..n + 1])|)
            && (n == |l| - 1 && Runnable(l[0]) ==> m == 0)
            && (n == |l| - 1 && !Runnable(l[0]) ==> m == if LastRunnable(ring) == |ring| then 0 else LastRunnable(ring))
  {
    hide Kept, LastRunnable, Scanned;
    var n := Scanned(l, wake);
    var ring := AfterScan(l, n);
    m := if n < |l| - 1 then 1 + |Kept(l[1..n + 1])| else if Runnable(l[0]) || LastRunnable(ring) == |ring| then 0 else LastRunnable(ring);
    assert ring[0..] + ring[..0] == ring;
  }

  lemma {:induction false} StopIsScanned(l: seq<Task>, wake: bool, stop: nat)
    requires l != [] && StopsAt(l, wake, stop)
    ensures Scanned(l, wake) == stop - 1
  {
    var n, rest := Scanned(l, wake), l[1..];
    assert forall j :: 0 <= j < |rest| ==> rest[j] == l[j + 1];
    assert forall j :: 0 <= j < n ==> rest[..n][j] == l[j + 1];
    assert forall j :: 0 <= j < n ==> !Eligible(rest[..n][j], wake);
  }

  /** Where the tasks that a scan up to task `n` leaves in the ring were. */
  ghost function Places(l: seq<Task>, n: nat): seq<nat>
    requires n < |l|
  {
    [0] + PlacesKept(l, n + 1) + After(n, |l|)
  }

  ghost function After(n: nat, len: nat): (r: seq<nat>)
    requires n < len
    ensures |r| == len - n - 1 && forall k :: 0 <= k < |r| ==> r[k] == n + 1 + k
  {
    seq(len - n - 1, k requires 0 <= k => n + 1 + k)
  }

  ghost function PlacesKept(l: seq<Task>, hi: nat): seq<nat>
    requires 0 < hi <= |l|
  {
    if hi == 1 then [] else PlacesKept(l, hi - 1) + if Reapable(l[hi - 1]) then [] else [hi - 1]
  }

  lemma {:induction false} PlacesIncrease(l: seq<Task>, hi: nat)
    requires 0 < hi <= |l|
    ensures forall k :: 0 <= k < |PlacesKept(l, hi)| ==> 0 < PlacesKept(l, hi)[k] < hi
    ensures forall a, b :: 0 <= a < b < |PlacesKept(l, hi)| ==> PlacesKept(l, hi)[a] < PlacesKept(l, hi)[b]
  {
    if hi > 1 { PlacesIncrease(l, hi - 1); }
  }

  lemma {:induction false} PlacesMembers(l: seq<Task>, hi: nat, j: nat)
    requires 0 < hi <= |l| && 0 < j < hi
    ensures j in PlacesKept(l, hi) <==> !Reapable(l[j])
  {
    PlacesIncrease(l, hi - 1);
    if j < hi - 1 { PlacesMembers(l, hi - 1, j); }
  }

  lemma {:induction false} PlacesKeptOf(l: seq<Task>, hi: nat)
    requires 0 < hi <= |l|
    ensures |PlacesKept(l, hi)| == |Kept(l[1..hi])|
    ensures forall k :: 0 <= k < |PlacesKept(l, hi)| ==> PlacesKept(l, hi)[k] < |l| && Kept(l[1..hi])[k] == l[PlacesKept(l, hi)[k]]
  {
    if hi > 1 {
      PlacesKeptOf(l, hi - 1);
      assert l[1..hi][..hi - 2] == l[1..hi - 1] && l[1..hi][hi - 2] == l[hi - 1];
    }
  }

  lemma {:induction false} PlacesOf(l: seq<Task>, n: nat)
    requires n < |l|
    ensures |Places(l, n)| == |AfterScan(l, n)| > 0 && Places(l, n)[0] == 0
    ensures forall k :: 0 <= k < |Places(l, n)| ==> Places(l, n)[k] < |l| && AfterScan(l, n)[k] == l[Places(l, n)[k]]
    ensures forall a, b :: 0 <= a < b < |Places(l, n)| ==> Places(l, n)[a] < Places(l, n)[b]
    ensures forall j: nat :: j < |l| ==> (j in Places(l, n) <==> !Unlinked(l, n + 1, j))
    ensures n < |l| - 1 ==> 1 + |Kept(l[1..n + 1])| < |Places(l, n)| && Places(l, n)[1 + |Kept(l[1..n + 1])|] == n + 1
  {
    hide Kept, PlacesKept;
    PlacesKeptOf(l, n + 1);
    PlacesIncrease(l, n + 1);
    forall j: nat | j < |l| ensures j in Places(l, n) <==> !Unlinked(l, n + 1, j) {
      PlaceMember(l, n, j);
    }
    hide Places, AfterScan;
    PlacesTasks(l, n);
  }

  lemma {:induction false} PlacesTasks(l: seq<Task>, n: nat)
    requires n < |l|
    ensures |Places(l, n)| == |AfterScan(l, n)|
    ensures forall k :: 0 <= k < |Places(l, n)| ==> Places(l, n)[k] < |l| && AfterScan(l, n)[k] == l[Places(l, n)[k]]
  {
    hide Kept, PlacesKept;
    PlacesKeptOf(l, n + 1);
  }

  lemma {:induction false} PlaceMember(l: seq<Task>, n: nat, j: nat)
    requires n < |l| && j < |l|
    ensures j in Places(l, n) <==> !Unlinked(l, n + 1, j)
  {
    hide PlacesKept;
    PlacesIncrease(l, n + 1);
    if 0 < j <= n { PlacesMembers(l, n + 1, j); }
    assert j in After(n, |l|) <==> j > n by { if j > n { assert After(n, |l|)[j - n - 1] == j; } }
  }

  /** Turning an increasing sequence. */
  lemma {:induction false} Turned(at: seq<nat>, m: nat)
    requires m < |at| && forall a, b :: 0 <= a < b < |at| ==> at[a] < at[b]
    ensures var pos := at[m..] + at[..m];
            && (forall a, b :: 0 <= a < b < |pos| ==> Before(pos[0], pos[a], pos[b]))
            && (forall j :: j in pos <==> j in at)
  {
    var pos := at[m..] + at[..m];
    assert forall j :: j in at ==> j in at[m..] || j in at[..m];
  }

  /** A current task that cannot go on yields to the last task that can, if there is one. */
  lemma {:induction false} IdleChosen(l: seq<Task>, ring: seq<Task>, at: seq<nat>, m: nat)
    requires |at| == |ring| > 0 && forall k :: 0 <= k < |at| ==> at[k] < |l| && ring[k] == l[at[k]]
    requires forall a, b :: 0 <= a < b < |at| ==> at[a] < at[b]
    requires forall j: nat :: j < |l| ==> (j in at <==> !Unlinked(l, |l|, j))
    requires l != [] && !Runnable(l[0]) && at[0] == 0
    requires m == if LastRunnable(ring) == |ring| then 0 else LastRunnable(ring)
    ensures m < |at|
    ensures if exists q :: 0 < q < |l| && l[q].state <= 1
            then l[at[m]].state <= 1 && forall j :: at[m] < j < |l| ==> l[j].state > 1
            else at[m] == 0
  {
    var k := LastRunnable(ring);
    forall j: nat | j < |l| && l[j].state <= 1 ensures k < |ring| && j <= at[k] {
      assert j in at;
      var i :| 0 <= i < |at| && at[i] == j;
      assert Runnable(ring[i]);
    }
    if k < |ring| { assert Runnable(ring[k]); }
  }

  // ------------------------------------------------------- bounded waiting

  lemma {:induction false} FirstEligibleAt(l: seq<Task>, wake: bool, i: nat)
    requires i < |l| && Eligible(l[i], wake)
    ensures FirstEligible(l, wake) <= i
  {
    if i > 0 { FirstEligibleAt(l[1..], wake, i - 1); }
  }

  /** A runnable thread other than the idle one gets strictly closer to the front with every scheduling step. */
  lemma {:induction false} StepCloser(l: seq<Task>, wake: bool, d: nat) returns (d': nat)
    requires 0 < d < |l| && Runnable(l[d]) && l[d].tid != 0
    ensures d' < d && d' < |RunNext(l, wake)| && RunNext(l, wake)[d'] == l[d]
  {
    var n := Scanned(l, wake);
    FirstEligibleAt(l[1..], wake, d - 1);
    d' := d - (n + 1);
    var ring, m := AfterScan(l, n), 1 + |Kept(l[1..n + 1])|;
    assert ring[m + d'] == l[d];
  }

  /** Between two scheduling steps tasks may change state, but none is added, removed or moved. */
  ghost predicate StatesChange(l: seq<Task>, m: seq<Task>) {
    |m| == |l| && forall i :: 0 <= i < |l| ==> m[i] == l[i].(state := m[i].state)
  }

  /** A run: `rings[i]` is the ring at the i-th scheduling step, `before[i]` the same ring when the step is taken. */
  ghost predicate IsRun(rings: seq<seq<Task>>, before: seq<seq<Task>>, wakes: seq<bool>) {
    && |rings| == |before| + 1 && |wakes| == |before|
    && forall i :: 0 <= i < |before| ==>
         StatesChange(rings[i], before[i]) && before[i] != [] && rings[i + 1] == RunNext(before[i], wakes[i])
  }

  ghost predicate StaysRunnable(before: seq<seq<Task>>, addr: nat) {
    forall i, j :: 0 <= i < |before| && 0 <= j < |before[i]| && before[i][j].addr == addr ==> Runnable(before[i][j])
  }

  /** A thread other than the idle one that stays runnable is current within as many steps as its ring distance. */
  lemma {:induction false} BoundedWait(rings: seq<seq<Task>>, before: seq<seq<Task>>, wakes: seq<bool>, d: nat) returns (i: nat)
    requires IsRun(rings, before, wakes) && d < |rings| && d < |rings[0]|
    requires rings[0][d].tid != 0 && StaysRunnable(before, rings[0][d].addr)
    ensures i <= d && rings[i] != [] && rings[i][0].addr == rings[0][d].addr
    decreases d
  {
    if d == 0 {
      i := 0;
    } else {
      hide IsRun, StaysRunnable, RunNext;
      RunTail(rings, before, wakes, rings[0][d].addr, d);
      var d' := StepCloser(before[0], wakes[0], d);
      i := BoundedWait(rings[1..], before[1..], wakes[1..], d');
      i := i + 1;
    }
  }

  /** The first step of a run, and the run that follows it. */
  lemma {:induction false} RunTail(rings: seq<seq<Task>>, before: seq<seq<Task>>, wakes: seq<bool>, addr: nat, d: nat)
    requires IsRun(rings, before, wakes) && 1 < |rings| && d < |rings[0]| && StaysRunnable(before, addr) && rings[0][d].addr == addr
    ensures |before| > 0 && |wakes| > 0 && before[0] != [] && |before[0]| == |rings[0]| && rings[1] == RunNext(before[0], wakes[0])
    ensures before[0][d].addr == addr && before[0][d].tid == rings[0][d].tid && Runnable(before[0][d])
    ensures IsRun(rings[1..], before[1..], wakes[1..]) && StaysRunnable(before[1..], addr)
  {
    hide RunNext, Runnable;
    assert StatesChange(rings[0], before[0]) && before[0][d] == rings[0][d].(state := before[0][d].state);
  }

  // ------------------------------------------------- processes and their threads

  datatype Proc = Proc(pid: int, threads: int)

  datatype Procs = Procs(live: map<nat, Proc>, exited: seq<int>)

  ghost function Threads(l: seq<Task>, p: nat): (n: nat)
    ensures n <= |l|
  {
    if l == [] then 0 else (if l[0].proc == p then 1 else 0) + Threads(l[1..], p)
  }

  /** Each live process counts its tasks in the ring, and every task's process is live. */
  ghost predicate Counted(ps: Procs, l: seq<Task>) {
    && (forall p :: p in ps.live ==> ps.live[p].threads == Threads(l, p))
    && (forall i :: 0 <= i < |l| ==> l[i].proc in ps.live)
  }

  /** No process exits twice, none that exited is live, and process numbers are not reused. */
  ghost predicate ExitsOnce(ps: Procs, lastPid: int) {
    && (forall i, j :: 0 <= i < j < |ps.exited| ==> ps.exited[i] != ps.exited[j])
    && (forall p :: p in ps.live ==> ps.live[p].pid !in ps.exited && 0 <= ps.live[p].pid <= lastPid)
    && (forall p, q :: p in ps.live && q in ps.live && ps.live[p].pid == ps.live[q].pid ==> p == q)
    && (forall i :: 0 <= i < |ps.exited| ==> ps.exited[i] <= lastPid)
  }

  /** What reaping a task does to its process: the last thread takes the process with it, except the kernel's. */
  function ReapOne(ps: Procs, kernel: nat, p: nat): Procs
    requires p in ps.live
  {
    var left := ps.live[p].threads - 1;
    if left == 0 && p != kernel
    then Procs(ps.live - {p}, ps.exited + [ps.live[p].pid])
    else ps.(live := ps.live[p := ps.live[p].(threads := left)])
  }

  ghost function ReapAll(ps: Procs, kernel: nat, dead: seq<Task>): Option<Procs>
  {
    if dead == [] then Some(ps) else
    match ReapAll(ps, kernel, dead[..|dead| - 1])
    case None => None
    case Some(q) =>
      var p := dead[|dead| - 1].proc;
      if p in q.live then Some(ReapOne(q, kernel, p)) else None
  }

  lemma {:induction false} ThreadsConcat(xs: seq<Task>, ys: seq<Task>, p: nat)
    ensures Threads(xs + ys, p) == Threads(xs, p) + Threads(ys, p)
  {
    if xs == [] {
      assert xs + ys == ys;
    } else {
      assert (xs + ys)[1..] == xs[1..] + ys;
      ThreadsConcat(xs[1..], ys, p);
    }
  }

  lemma {:induction false} ThreadsWithout(l: seq<Task>, i: nat, p: nat)
    requires i < |l|
    ensures Threads(l, p) == Threads(l[..i] + l[i + 1..], p) + if l[i].proc == p then 1 else 0
  {
    ThreadsConcat(l[..i], l[i + 1..], p);
    ThreadsConcat(l[..i], [l[i]] + l[i + 1..], p);
    assert l[..i] + ([l[i]] + l[i + 1..]) == l && ([l[i]] + l[i + 1..])[1..] == l[i + 1..];
  }

  lemma {:induction false} ThreadsNone(l: seq<Task>, p: nat, i: nat)
    requires i < |l| && l[i].proc == p
    ensures Threads(l, p) > 0
  {
    if i > 0 {
      ThreadsNone(l[1..], p, i - 1);
    }
  }

  /** Unlinking a dead task keeps the thread counts, and the process goes exactly with its last task. */
  lemma {:induction false} ReapCounted(ps: Procs, l: seq<Task>, kernel: nat, i: nat)
    requires Counted(ps, l) && i < |l|
    ensures var l', ps' := l[..i] + l[i + 1..], ReapOne(ps, kernel, l[i].proc);
            && (l[i].proc == kernel ==> Threads(l', kernel) > 0) ==> Counted(ps', l')
    ensures l[i].proc != kernel ==>
              (l[i].proc in ReapOne(ps, kernel, l[i].proc).live <==> Threads(l[..i] + l[i + 1..], l[i].proc) > 0)
  {
    var l', p := l[..i] + l[i + 1..], l[i].proc;
    forall q ensures Threads(l, q) == Threads(l', q) + if p == q then 1 else 0 { ThreadsWithout(l, i, q); }
    if ps.live[p].threads == 1 && p != kernel {
      forall j | 0 <= j < |l'| ensures l'[j].proc != p {
        if l'[j].proc == p { ThreadsNone(l', p, j); }
      }
    }
  }

  lemma {:induction false} ReapOnce(ps: Procs, kernel: nat, p: nat, lastPid: int)
    requires ExitsOnce(ps, lastPid) && p in ps.live
    ensures ExitsOnce(ReapOne(ps, kernel, p), lastPid)
  {
  }

  lemma {:induction false} ThreadsRotate(l: seq<Task>, j: nat, p: nat)
    requires j <= |l|
    ensures Threads(Rotate(l, j), p) == Threads(l, p)
  {
    ThreadsConcat(l[j..], l[..j], p);
    ThreadsConcat(l[..j], l[j..], p);
    assert l[..j] + l[j..] == l;
  }

  lemma {:induction false} CountedRotate(ps: Procs, l: seq<Task>, j: nat)
    requires Counted(ps, l) && j <= |l|
    ensures Counted(ps, Rotate(l, j))
  {
    forall p ensures Threads(Rotate(l, j), p) == Threads(l, p) { ThreadsRotate(l, j, p); }
    forall i | 0 <= i < |l| ensures Rotate(l, j)[i].proc in ps.live {
      assert Rotate(l, j)[i] == l[if i < |l| - j then i + j else i + j - |l|];
    }
  }

  // ----------------------------------------------------- one step of the scan

  lemma {:induction false} ScanSplit(l: seq<Task>, n: nat)
    requires n + 1 < |l|
    ensures l[1..n + 2] == l[1..n + 1] + [l[n + 1]] && l[1..n + 2][..n] == l[1..n + 1]
    ensures Kept(l[1..n + 2]) == Kept(l[1..n + 1]) + if Reapable(l[n + 1]) then [] else [l[n + 1]]
    ensures Reaped(l[1..n + 2]) == Reaped(l[1..n + 1]) + if Reapable(l[n + 1]) then [l[n + 1]] else []
    ensures l[n + 1..] == [l[n + 1]] + l[n + 2..]
  {
    assert l[1..n + 2][..n] == l[1..n + 1];
  }

  /** The scan stands at index `1 + |Kept|`, on task `n + 1` of the original ring. */
  lemma {:induction false} ScanAt(l: seq<Task>, n: nat)
    requires n + 1 < |l|
    ensures AfterScan(l, n)[1 + |Kept(l[1..n + 1])|] == l[n + 1]
    ensures var ring, i := AfterScan(l, n), 1 + |Kept(l[1..n + 1])|;
            AfterScan(l, n + 1) == if Reapable(l[n + 1]) then ring[..i] + ring[i + 1..] else ring
  {
    hide Kept;
    ScanSplit(l, n);
    AroundMiddle([l[0]] + Kept(l[1..n + 1]), l[n + 1], l[n + 2..]);
    assert [l[0]] + (Kept(l[1..n + 1]) + [l[n + 1]]) == [l[0]] + Kept(l[1..n + 1]) + [l[n + 1]];
    assert [l[0]] + (Kept(l[1..n + 1]) + []) == [l[0]] + Kept(l[1..n + 1]);
  }

  lemma {:induction false} AroundMiddle<T>(front: seq<T>, x: T, back: seq<T>)
    ensures var s := front + ([x] + back);
            s[|front|] == x && s[..|front|] + s[|front| + 1..] == front + back && s == front + [x] + back
  {
  }

  /** The address of the last runnable task, or 0. */
  ghost function IdleOf(l: seq<Task>): nat {
    var j := LastRunnable(l); if j < |l| then l[j].addr else 0
  }

  lemma {:induction false} IdleSnoc(l: seq<Task>, t: Task)
    ensures IdleOf(l + [t]) == if Runnable(t) then t.addr else IdleOf(l)
  {
    assert (l + [t])[..|l|] == l;
  }
}
