/** The scheduler of src/kernel/kern_sched.c: tasks are records in kernel memory, linked into a circular list. */
module Scheduler {
  import opened Options
  import opened SchedSpec

  /** A `kern_task_t`: thread number, state, process and link. */
  datatype Record = Record(tid: int, state: int, proc: nat, next: nat)

  type Memory = map<nat, Record>

  ghost function Succ(ring: seq<nat>, i: nat): nat
    requires i < |ring|
  {
    if i + 1 < |ring| then ring[i + 1] else ring[0]
  }

  /** The records at `ring` form a single cycle in that order. */
  ghost predicate Ring(m: Memory, ring: seq<nat>) {
    && ring != [] && Distinct(ring)
    && (forall i :: 0 <= i < |ring| ==> ring[i] in m)
    && (forall i :: 0 <= i < |ring| ==> LinkAt(m, ring, i))
  }

  ghost function TaskAt(m: Memory, a: nat): Task {
    if a in m then Task(a, m[a].tid, m[a].state, m[a].proc) else Task(a, 0, 0, 0)
  }

  ghost function View(m: Memory, ring: seq<nat>): (r: seq<Task>)
    ensures |r| == |ring|
    ensures forall i :: 0 <= i < |ring| ==> r[i] == TaskAt(m, ring[i])
  {
    seq(|ring|, i requires 0 <= i < |ring| => TaskAt(m, ring[i]))
  }

  ghost function Drop<T>(s: seq<T>, i: nat): (r: seq<T>)
    requires i < |s|
    ensures |r| == |s| - 1
    ensures forall j :: 0 <= j < |r| ==> r[j] == s[if j < i then j else j + 1]
  {
    s[..i] + s[i + 1..]
  }

  ghost function Insert<T>(s: seq<T>, i: nat, x: T): (r: seq<T>)
    requires i <= |s|
    ensures |r| == |s| + 1
    ensures forall j :: 0 <= j < |r| ==> r[j] == if j < i then s[j] else if j == i then x else s[j - 1]
  {
    s[..i] + [x] + s[i..]
  }

  ghost predicate Distinct(ring: seq<nat>) {
    forall i, j :: 0 <= i < j < |ring| ==> ring[i] != ring[j]
  }

  ghost predicate LinkAt(m: Memory, ring: seq<nat>, i: nat)
    requires i < |ring|
  {
    ring[i] != 0 && ring[i] in m && m[ring[i]].next == Succ(ring, i)
  }

  lemma {:induction false} DropDistinct(ring: seq<nat>, i: nat)
    requires Distinct(ring) && i < |ring|
    ensures Distinct(Drop(ring, i)) && ring[i] !in Drop(ring, i)
  {
  }

  lemma {:induction false} InsertDistinct(ring: seq<nat>, i: nat, a: nat)
    requires Distinct(ring) && i <= |ring| && a !in ring
    ensures Distinct(Insert(ring, i, a))
  {
  }

  /** Unlinking the task after `ring[i - 1]`. */
  lemma {:induction false} RingDrop(m: Memory, ring: seq<nat>, i: nat)
    requires Ring(m, ring) && 0 < i < |ring|
    ensures var m' := m[ring[i - 1] := m[ring[i - 1]].(next := m[ring[i]].next)] - {ring[i]};
            Ring(m', Drop(ring, i)) && View(m', Drop(ring, i)) == Drop(View(m, ring), i)
  {
    DropDistinct(ring, i);
    var ring' := Drop(ring, i);
    var m' := m[ring[i - 1] := m[ring[i - 1]].(next := m[ring[i]].next)] - {ring[i]};
    forall j | 0 <= j < |ring'| ensures LinkAt(m', ring', j) && TaskAt(m', ring'[j]) == TaskAt(m, ring'[j]) {
      var k := if j < i then j else j + 1;
      assert LinkAt(m, ring, k) && LinkAt(m, ring, i);
    }
  }

  /** Linking a new task after `ring[i]`. */
  lemma {:induction false} RingInsert(m: Memory, ring: seq<nat>, i: nat, a: nat, r: Record)
    requires Ring(m, ring) && i < |ring| && a != 0 && a !in m && r.next == m[ring[i]].next
    ensures var m' := m[a := r][ring[i] := m[ring[i]].(next := a)];
            && Ring(m', Insert(ring, i + 1, a))
            && View(m', Insert(ring, i + 1, a)) == Insert(View(m, ring), i + 1, Task(a, r.tid, r.state, r.proc))
  {
    InsertDistinct(ring, i + 1, a);
    hide Distinct;
    var ring' := Insert(ring, i + 1, a);
    var m' := m[a := r][ring[i] := m[ring[i]].(next := a)];
    forall j | 0 <= j < |ring'| ensures LinkAt(m', ring', j) && (j != i + 1 ==> TaskAt(m', ring'[j]) == TaskAt(m, ring'[j])) {
      InsertLink(m, ring, i, a, r, j);
    }
    hide LinkAt;
  }

  lemma {:induction false} InsertLink(m: Memory, ring: seq<nat>, i: nat, a: nat, r: Record, j: nat)
    requires Ring(m, ring) && i < |ring| && a != 0 && a !in m && r.next == m[ring[i]].next && j <= |ring|
    ensures var ring', m' := Insert(ring, i + 1, a), m[a := r][ring[i] := m[ring[i]].(next := a)];
            LinkAt(m', ring', j) && (j != i + 1 ==> TaskAt(m', ring'[j]) == TaskAt(m, ring'[j]))
  {
    var k := if j <= i then j else j - 1;
    assert LinkAt(m, ring, k) && LinkAt(m, ring, i);
  }

  lemma {:induction false} RingRotate(m: Memory, ring: seq<nat>, j: nat)
    requires Ring(m, ring) && j < |ring|
    ensures var ring' := ring[j..] + ring[..j];
            Ring(m, ring') && View(m, ring') == Rotate(View(m, ring), j)
  {
    var ring' := ring[j..] + ring[..j];
    forall i | 0 <= i < |ring'| ensures LinkAt(m, ring', i) {
      assert LinkAt(m, ring, if i < |ring| - j then i + j else i + j - |ring|);
    }
  }

  // -------------------------------------------------------------- invariant

  ghost predicate States(l: seq<Task>) {
    forall i :: 0 <= i < |l| ==> l[i].state in {READY, RUNNING, BLOCKED, DEAD}
  }

  /** The boot thread: thread 0 of the kernel process. */
  ghost predicate HasRoot(l: seq<Task>, kernel: nat) {
    exists i :: 0 <= i < |l| && l[i].tid == 0 && l[i].proc == kernel
  }

  /** What the task list and the process table promise about the tasks in the ring. */
  ghost predicate Tallied(l: seq<Task>, ps: Procs, kernel: nat, lastPid: int) {
    Counted(ps, l) && ExitsOnce(ps, lastPid) && HasRoot(l, kernel) && States(l)
  }

  lemma {:induction false} TalliedDrop(l: seq<Task>, ps: Procs, kernel: nat, lastPid: int, i: nat)
    requires Tallied(l, ps, kernel, lastPid) && i < |l| && Reapable(l[i])
    ensures l[i].proc in ps.live && Tallied(Drop(l, i), ReapOne(ps, kernel, l[i].proc), kernel, lastPid)
  {
    var l' := Drop(l, i);
    var j :| 0 <= j < |l| && l[j].tid == 0 && l[j].proc == kernel;
    assert l'[if j < i then j else j - 1] == l[j];
    ThreadsNone(l', kernel, if j < i then j else j - 1);
    ReapCounted(ps, l, kernel, i);
    ReapOnce(ps, kernel, l[i].proc, lastPid);
  }

  lemma {:induction false} ThreadsStates(l: seq<Task>, m: seq<Task>, p: nat)
    requires StatesChange(l, m)
    ensures Threads(l, p) == Threads(m, p)
  {
    if l != [] {
      assert forall i :: 0 <= i < |l[1..]| ==> l[1..][i] == l[i + 1] && m[1..][i] == m[i + 1];
      ThreadsStates(l[1..], m[1..], p);
    }
  }

  lemma {:induction false} TalliedStates(l: seq<Task>, m: seq<Task>, ps: Procs, kernel: nat, lastPid: int)
    requires Tallied(l, ps, kernel, lastPid) && StatesChange(l, m) && States(m)
    ensures Tallied(m, ps, kernel, lastPid)
  {
    forall p ensures Threads(l, p) == Threads(m, p) { ThreadsStates(l, m, p); }
    var j :| 0 <= j < |l| && l[j].tid == 0 && l[j].proc == kernel;
    assert m[j].tid == 0 && m[j].proc == kernel;
  }

  lemma {:induction false} TalliedRotate(l: seq<Task>, ps: Procs, kernel: nat, lastPid: int, k: nat)
    requires Tallied(l, ps, kernel, lastPid) && k < |l|
    ensures Tallied(Rotate(l, k), ps, kernel, lastPid)
  {
    CountedRotate(ps, l, k);
    var r := Rotate(l, k);
    forall i | 0 <= i < |r| ensures r[i] in l {
      assert r[i] == l[if i < |l| - k then i + k else i + k - |l|];
    }
    var j :| 0 <= j < |l| && l[j].tid == 0 && l[j].proc == kernel;
    assert r[if j < k then j + (|l| - k) else j - k] == l[j];
  }

  function OneMore(ps: Procs, p: nat): Procs
    requires p in ps.live
  {
    ps.(live := ps.live[p := ps.live[p].(threads := ps.live[p].threads + 1)])
  }

  lemma {:induction false} CountedInsert(l: seq<Task>, ps: Procs, i: nat, t: Task)
    requires Counted(ps, l) && i <= |l| && t.proc in ps.live
    ensures Counted(OneMore(ps, t.proc), Insert(l, i, t))
  {
    var l' := Insert(l, i, t);
    assert l'[..i] + l'[i + 1..] == l;
    forall p ensures Threads(l', p) == Threads(l, p) + if t.proc == p then 1 else 0 {
      ThreadsWithout(l', i, p);
    }
  }

  lemma {:induction false} TalliedInsert(l: seq<Task>, ps: Procs, kernel: nat, lastPid: int, i: nat, t: Task)
    requires Tallied(l, ps, kernel, lastPid) && i <= |l| && t.proc in ps.live && t.state == READY
    ensures Tallied(Insert(l, i, t), OneMore(ps, t.proc), kernel, lastPid)
  {
    hide Counted;
    CountedInsert(l, ps, i, t);
    var l' := Insert(l, i, t);
    var j :| 0 <= j < |l| && l[j].tid == 0 && l[j].proc == kernel;
    assert l'[if j < i then j else j + 1] == l[j];
  }

  lemma {:induction false} NoThreads(l: seq<Task>, p: nat)
    requires forall i :: 0 <= i < |l| ==> l[i].proc != p
    ensures Threads(l, p) == 0
  {
    if l != [] { NoThreads(l[1..], p); }
  }

  lemma {:induction false} TalliedNewProc(l: seq<Task>, ps: Procs, kernel: nat, lastPid: int, p: nat)
    requires Tallied(l, ps, kernel, lastPid) && p !in ps.live && lastPid >= 0
    ensures Tallied(l, ps.(live := ps.live[p := Proc(lastPid + 1, 0)]), kernel, lastPid + 1)
  {
    NoThreads(l, p);
  }

  /** A process without threads can be released. */
  lemma {:induction false} TalliedExit(l: seq<Task>, ps: Procs, kernel: nat, lastPid: int, p: nat)
    requires Tallied(l, ps, kernel, lastPid) && p in ps.live && Threads(l, p) == 0
    ensures Tallied(l, Procs(ps.live - {p}, ps.exited + [ps.live[p].pid]), kernel, lastPid)
  {
    forall i | 0 <= i < |l| ensures l[i].proc != p {
      if l[i].proc == p { ThreadsNone(l, p, i); }
    }
  }

  /** No two tasks in the ring have the same thread number, and none has one that was not given out yet. */
  ghost predicate Numbered(l: seq<Task>, lastTid: int) {
    && lastTid >= 0 && (forall i :: 0 <= i < |l| ==> 0 <= l[i].tid <= lastTid)
    && forall i, j :: 0 <= i < j < |l| ==> l[i].tid != l[j].tid
  }

  lemma {:induction false} NumberedDrop(l: seq<Task>, lastTid: int, i: nat)
    requires Numbered(l, lastTid) && i < |l|
    ensures Numbered(Drop(l, i), lastTid)
  {
  }

  lemma {:induction false} NumberedInsert(l: seq<Task>, lastTid: int, i: nat, t: Task)
    requires Numbered(l, lastTid) && i <= |l| && t.tid == lastTid + 1
    ensures Numbered(Insert(l, i, t), lastTid + 1) && Numbered(l, lastTid + 1)
  {
  }

  lemma {:induction false} NumberedRotate(l: seq<Task>, lastTid: int, k: nat)
    requires Numbered(l, lastTid) && k < |l|
    ensures Numbered(Rotate(l, k), lastTid)
  {
    var r := Rotate(l, k);
    forall i | 0 <= i < |r| ensures r[i] == l[if i < |l| - k then i + k else i + k - |l|] {}
  }

  lemma {:induction false} NumberedStates(l: seq<Task>, m: seq<Task>, lastTid: int)
    requires Numbered(l, lastTid) && |m| == |l| && forall i :: 0 <= i < |l| ==> m[i].tid == l[i].tid
    ensures Numbered(m, lastTid)
  {
  }

  class Sched {
    var tasks: Memory
    var procs: map<nat, Proc>
    var current: nat
    var head: nat
    var kernel: nat
    var wake: bool
    var lastTid: int
    var lastPid: int
    ghost var ring: seq<nat>
    ghost var exited: seq<int>

    /** The tasks in ring order, the current one first. */
    ghost function L(): (r: seq<Task>) reads this
      ensures |r| == |ring|
    {
      View(tasks, ring)
    }

    ghost function Ps(): Procs reads this {
      Procs(procs, exited)
    }

    ghost predicate Valid() reads this {
      && Ring(tasks, ring) && ring[0] == current && head in ring
      && Tallied(L(), Ps(), kernel, lastPid) && lastPid >= 0 && Numbered(L(), lastTid)
    }

    /** `process_exit`: the kernel process never exits; any other is recorded and released. */
    method ProcessExit(p: nat)
      requires p in procs
      modifies `procs, `exited
      ensures Ps() == if p == kernel then old(Ps()) else Procs(old(procs) - {p}, old(exited) + [old(procs)[p].pid])
      ensures old(Valid()) && Threads(old(L()), p) == 0 ==> Valid()
    {
      hide Tallied, Ring, Numbered;
      if Valid() && Threads(L(), p) == 0 { TalliedExit(L(), Ps(), kernel, lastPid, p); }
      if p == kernel {
        return;
      }
      exited := exited + [procs[p].pid];
      procs := procs - {p};
    }

    /** A process loses a thread, and exits with its last one. */
    method LeaveProcess(p: nat)
      requires p in procs
      modifies `procs, `exited
      ensures Ps() == ReapOne(old(Ps()), kernel, p)
    {
      procs := procs[p := procs[p].(threads := procs[p].threads - 1)];
      if procs[p].threads == 0 {
        LastThread(old(procs), p);
        ProcessExit(p);
      }
    }

    /** The reaping branch of `sched_run_next`: unlink `next`, the task after `prev`, and drop its process
        with its last thread. */
    method ReapNext(prev: nat, next: nat, ghost i: nat)
      requires Valid() && 0 < i < |ring| && prev == ring[i - 1] && next == ring[i] && Reapable(L()[i])
      modifies `tasks, `procs, `head, `ring, `exited
      ensures Valid()
      ensures ring == Drop(old(ring), i) && L() == Drop(old(L()), i)
      ensures old(L())[i].proc in old(Ps()).live && Ps() == ReapOne(old(Ps()), kernel, old(L())[i].proc)
    {
      hide Tallied, Numbered, Distinct, LinkAt, View, ReapOne;
      RingDrop(tasks, ring, i);
      TalliedDrop(L(), Ps(), kernel, lastPid, i);
      NumberedDrop(L(), lastTid, i);
      NextHead(tasks, ring, i);
      var after := tasks[next].next;
      var p := tasks[next].proc;
      tasks := tasks[prev := tasks[prev].(next := after)];
      if next == head {
        head := if tasks[prev].state != DEAD then prev else after;
      }
      LeaveProcess(p);
      tasks := tasks - {next};
      ring := Drop(ring, i);
    }

    /** The scan loop of `sched_run_next`. */
    method Scan() returns (next: nat, idle: nat, ghost n: nat)
      requires Valid()
      modifies `tasks, `procs, `head, `ring, `exited
      ensures Valid()
      ensures n == Scanned(old(L()), wake)
      ensures L() == AfterScan(old(L()), n)
      ensures Some(Ps()) == ReapAll(old(Ps()), kernel, Reaped(old(L())[1..n + 1]))
      ensures next == if n < |old(L())| - 1 then old(L())[n + 1].addr else current
      ensures idle == IdleOf(Kept(old(L())[1..n + 1]))
    {
      hide Tallied, Numbered, Distinct, LinkAt, ScanState, AfterScan, Scanned, Kept, Reaped, ReapAll, IdleOf, ReapOne, Drop, View;
      ghost var l, ps := L(), Ps();
      ghost var i := 1;
      n := 0;
      var prev := current;
      next, idle := tasks[current].next, 0;
      ScanBegins(l, ps, kernel, wake);
      NextAt(tasks, ring, 0);
      while next != current
        invariant Valid() && n < |l| && 0 < i <= |ring| && ScanState(l, ps, kernel, wake, n, i, L(), Ps(), idle)
        invariant prev == ring[i - 1] && next == Succ(ring, i - 1)
        decreases |l| - n
      {
        ScanTurn(l, ps, kernel, wake, n, i, L(), Ps(), idle);
        NextAt(tasks, ring, i);
        if tasks[next].state == DEAD && tasks[next].tid != 0 {
          ReapNext(prev, next, i);
          NextAt(tasks, ring, i - 1);
          next := tasks[prev].next;
        } else if tasks[next].state > RUNNING {
          prev, next, i := next, tasks[next].next, i + 1;
        } else if tasks[next].tid == 0 && !wake {
          idle := next;
          prev, next, i := next, tasks[next].next, i + 1;
        } else {
          return;
        }
        n := n + 1;
      }
      NextAt(tasks, ring, i);
      ScanEnds(l, ps, kernel, wake, n, i, L(), Ps(), idle);
    }

    /** The context switch: `current_task` becomes the task at ring position `j`. */
    method SwitchTo(next: nat, ghost j: nat)
      requires Valid() && j < |ring| && next == ring[j]
      modifies `current, `ring
      ensures Valid() && L() == Rotate(old(L()), j)
    {
      hide Tallied, Numbered, Distinct, LinkAt;
      RingRotate(tasks, ring, j);
      TalliedRotate(L(), Ps(), kernel, lastPid, j);
      NumberedRotate(L(), lastTid, j);
      RotateHas(ring, j, head);
      current := next;
      ring := ring[j..] + ring[..j];
    }

    /** Where a current task that cannot go on looks for another: the deferred idle thread, or around the ring. */
    method Fallback(idle: nat) returns (f: nat, ghost j: nat)
      requires Valid() && !Runnable(L()[0]) && idle == IdleOf(L()[1..])
      ensures j < |ring| && f == ring[j] && f == L()[if LastRunnable(L()) < |ring| then LastRunnable(L()) else 0].addr
      ensures j == if LastRunnable(L()) < |ring| then LastRunnable(L()) else 0
    {
      hide Tallied, Numbered, Distinct, IdleOf, LastRunnable;
      IdleCases(tasks, ring, idle);
      StatesOf(L(), Ps(), kernel, lastPid);
      NextAt(tasks, ring, 0);
      j := if idle != 0 then LastRunnable(L()) else if |ring| == 1 then 0 else 1;
      f := if idle != 0 && idle != current then idle else tasks[current].next;
      while (tasks[f].state == DEAD || tasks[f].state == BLOCKED) && f != current
        invariant j < |ring| && f == ring[j]
        invariant idle != 0 ==> j == LastRunnable(L())
        decreases if j == 0 then 0 else |ring| - j
      {
        NextAt(tasks, ring, j);
        f := tasks[f].next;
        j := if j + 1 < |ring| then j + 1 else 0;
      }
      NextAt(tasks, ring, j);
    }

    /** `sched_run_next` */
    method SchedRunNext()
      requires Valid()
      modifies `tasks, `procs, `head, `ring, `exited, `current
      ensures Valid()
      ensures L() == RunNext(old(L()), wake)
      ensures Some(Ps()) == ReapAll(old(Ps()), kernel, Reaped(old(L())[1..Scanned(old(L()), wake) + 1]))
    {
      hide Tallied, Numbered, Distinct, LinkAt, AfterScan, Scanned, Kept, Reaped, ReapAll, IdleOf, LastRunnable, Rotate;
      ghost var l := L();
      var next, idle, n := Scan();
      RunNextCases(l, wake, L());
      StatesOf(L(), Ps(), kernel, lastPid);
      if next == current {
        ScanCurrent(tasks, ring, l, n, next);
        if tasks[current].state == DEAD || tasks[current].state == BLOCKED {
          var fallback, j := Fallback(idle);
          if fallback != current {
            SwitchTo(fallback, j);
          }
        }
        return;
      }
      SwitchTo(next, 1 + |Kept(l[1..n + 1])|);
    }

    /** `sched_init`: the boot thread alone in its ring, in the kernel process. */
    constructor (task: nat, process: nat)
      requires task != 0
      ensures Valid() && L() == [Task(task, 0, RUNNING, process)] && kernel == process && !wake
      ensures Ps() == Procs(map[process := Proc(0, 1)], [])
    {
      tasks, procs := map[task := Record(0, RUNNING, process, task)], map[process := Proc(0, 1)];
      current, head, kernel, wake, lastTid, lastPid := task, task, process, false, 0, 0;
      ring, exited := [task], [];
      new;
      assert L() == [Task(task, 0, RUNNING, process)] && L()[0].tid == 0 && L()[1..] == [];
      assert LinkAt(tasks, ring, 0);
    }

    /** `process_create`, given the address `kmallocz` returned. */
    method ProcessCreate(p: nat)
      requires Valid() && p !in procs
      modifies `procs, `lastPid
      ensures Valid() && L() == old(L())
      ensures Ps() == old(Ps()).(live := old(procs)[p := Proc(lastPid, 0)]) && lastPid == old(lastPid) + 1
    {
      hide Tallied, Numbered, Ring;
      TalliedNewProc(L(), Ps(), kernel, lastPid, p);
      lastPid := lastPid + 1;
      procs := procs[p := Proc(lastPid, 0)];
    }

    /** `task_create_internal`, given the address `kmalloc` returned for the task, if any, and whether there was memory
        for its stack: the new task goes behind the head of the list. */
    method TaskCreate(p: nat, addr: Option<nat>, stack: bool) returns (ok: bool, ghost h: nat)
      requires Valid() && p in procs && (addr.Some? ==> addr.value != 0 && addr.value !in tasks)
      modifies `tasks, `procs, `lastTid, `ring
      ensures Valid() && ok == (addr.Some? && stack)
      ensures h < |old(ring)| && old(ring)[h] == head
      ensures !ok ==> L() == old(L()) && Ps() == old(Ps())
      ensures lastTid == if addr.Some? then old(lastTid) + 1 else old(lastTid)
      ensures ok ==> L() == Insert(old(L()), h + 1, Task(addr.value, lastTid, READY, p))
      ensures ok ==> p in old(Ps()).live && Ps() == OneMore(old(Ps()), p)
    {
      hide Tallied, Numbered, Distinct, LinkAt, View, Insert;
      h := IndexOf(ring, head);
      if addr.None? {
        return false, h;
      }
      var a := addr.value;
      var r := Record(lastTid + 1, READY, p, tasks[head].next);
      RingInsert(tasks, ring, h, a, r);
      TalliedInsert(L(), Ps(), kernel, lastPid, h + 1, Task(a, r.tid, READY, p));
      NumberedInsert(L(), lastTid, h + 1, Task(a, r.tid, READY, p));
      InsertHas(ring, h + 1, a, head);
      lastTid := lastTid + 1;
      if !stack {
        return false, h;
      }
      procs := procs[p := procs[p].(threads := procs[p].threads + 1)];
      tasks := tasks[a := r];
      tasks := tasks[head := tasks[head].(next := a)];
      ring := Insert(ring, h + 1, a);
      return true, h;
    }

    /** Writing one task's state, as `sched_block_current` and `sched_unblock` do. */
    method SetState(a: nat, state: int)
      requires Valid() && a in ring && state in {READY, RUNNING, BLOCKED, DEAD}
      modifies `tasks
      ensures Valid() && L() == WithState(old(L()), a, state)
      ensures |L()| == |old(L())| && forall i :: 0 <= i < |L()| ==> L()[i] == if old(L())[i].addr == a then old(L())[i].(state := state) else old(L())[i]
    {
      hide Tallied, Numbered, Ring, WithState;
      StateStep(tasks, ring, a, state, Ps(), kernel, lastPid);
      StateNumbers(L(), a, state, lastTid);
      tasks := tasks[a := tasks[a].(state := state)];
    }

    /** `sched_block_current` */
    method BlockCurrent()
      requires Valid()
      modifies `tasks, `procs, `head, `ring, `exited, `current
      ensures Valid() && L() == RunNext(WithState(old(L()), old(current), BLOCKED), wake)
      ensures var l := WithState(old(L()), old(current), BLOCKED);
              Some(Ps()) == ReapAll(old(Ps()), kernel, Reaped(l[1..Scanned(l, wake) + 1]))
    {
      hide Tallied, Numbered, Ring, WithState;
      CurrentIn(tasks, ring);
      SetState(current, BLOCKED);
      SchedRunNext();
    }

    /** One turn of the loop in `sched_thread_exit`. */
    method ThreadExit()
      requires Valid()
      modifies `tasks, `procs, `head, `ring, `exited, `current
      ensures Valid() && L() == RunNext(WithState(old(L()), old(current), DEAD), wake)
      ensures var l := WithState(old(L()), old(current), DEAD);
              Some(Ps()) == ReapAll(old(Ps()), kernel, Reaped(l[1..Scanned(l, wake) + 1]))
    {
      hide Tallied, Numbered, Ring, WithState;
      CurrentIn(tasks, ring);
      SetState(current, DEAD);
      SchedRunNext();
    }

    /** `sched_unblock` */
    method Unblock(a: nat)
      requires Valid() && (a == 0 || a in ring)
      modifies `tasks
      ensures Valid()
      ensures L() == if a != 0 && old(tasks)[a].state == BLOCKED then WithState(old(L()), a, READY) else old(L())
    {
      hide Tallied, Numbered, Distinct, LinkAt, WithState;
      if a != 0 && tasks[a].state == BLOCKED {
        SetState(a, READY);
      }
    }

    /** `sched_kill_process`: every task of the process is marked dead, the current one included. */
    method KillProcess(pid: int) returns (found: bool)
      requires Valid()
      modifies `tasks
      ensures Valid()
      ensures L() == if pid < 0 then old(L()) else Killed(old(L()), Ps(), pid)
      ensures |L()| == |old(L())|
      ensures forall i :: 0 <= i < |L()| ==>
                L()[i] == if pid >= 0 && old(L())[i].proc in procs && procs[old(L())[i].proc].pid == pid
                          then old(L())[i].(state := 3) else old(L())[i]
      ensures found <==> pid >= 0 && AnyNamed(old(L()), Ps(), pid)
    {
      hide Tallied, Numbered, Killed, PartKilled, AnyNamed, Ring, LinkAt, Names, NamedBefore;
      if pid < 0 {
        return false;
      }
      ghost var h := IndexOf(ring, head);
      ghost var lr, before := ring[h..] + ring[..h], tasks;
      KillStart(tasks, ring, h, Ps(), pid);
      var cur := head;
      found := false;
      ghost var i := 0;
      while true
        invariant 0 <= i < |lr| && cur == lr[i] && PartKilled(before, tasks, lr, i, Ps(), pid)
        invariant found <==> NamedBefore(before, lr, i, Ps(), pid)
        decreases |lr| - i
      {
        KillStep(before, tasks, ring, h, i, Ps(), kernel, lastPid, pid);
        if procs[tasks[cur].proc].pid == pid {
          tasks := tasks[cur := tasks[cur].(state := DEAD)];
          found := true;
        }
        cur := tasks[cur].next;
        i := i + 1;
        if cur == head {
          break;
        }
      }
      KillDone(before, tasks, ring, h, Ps(), kernel, lastPid, pid);
      KillNumbers(old(L()), Ps(), pid, lastTid);
      KilledAt(old(L()), Ps(), pid);
      KillFound(before, ring, h, Ps(), pid, found);
    }
  }

  lemma {:induction false} NextAt(m: Memory, ring: seq<nat>, i: nat)
    requires Ring(m, ring)
    ensures i < |ring| ==> m[ring[i]].next == Succ(ring, i)
    ensures i < |ring| && i > 0 ==> ring[i] != ring[0]
    ensures |View(m, ring)| == |ring|
  {
    if i < |ring| { assert LinkAt(m, ring, i); }
  }

  lemma {:induction false} ScanStart(l: seq<Task>, ps: Procs, kernel: nat, wake: bool)
    requires l != []
    ensures Kept(l[1..1]) == [] && AfterScan(l, 0) == l && NoneEligible(l[1..1], wake) && IdleOf([]) == 0
    ensures ReapAll(ps, kernel, Reaped(l[1..1])) == Some(ps)
  {
  }

  lemma {:induction false} ReapSnoc(ps: Procs, kernel: nat, dead: seq<Task>, t: Task, now: Procs)
    requires ReapAll(ps, kernel, dead) == Some(now) && t.proc in now.live
    ensures ReapAll(ps, kernel, dead + [t]) == Some(ReapOne(now, kernel, t.proc))
  {
    assert (dead + [t])[..|dead|] == dead;
  }

  lemma {:induction false} NoneEligibleSnoc(l: seq<Task>, t: Task, wake: bool)
    requires NoneEligible(l, wake) && !Eligible(t, wake)
    ensures NoneEligible(l + [t], wake)
  {
  }

  lemma {:induction false} ScanLonger(l: seq<Task>, n: nat)
    requires n < |l| && 1 + |Kept(l[1..n + 1])| < |AfterScan(l, n)|
    ensures n + 1 < |l|
  {
  }

  /** What one turn of the scan, at task `n + 1` of the original ring, has to establish. */
  lemma {:induction false} ScanStep(l: seq<Task>, ps: Procs, kernel: nat, wake: bool, n: nat, ring: seq<Task>, now: Procs)
    requires n < |l| && ring == AfterScan(l, n) && Some(now) == ReapAll(ps, kernel, Reaped(l[1..n + 1]))
    requires 1 + |Kept(l[1..n + 1])| < |ring| && NoneEligible(l[1..n + 1], wake)
    ensures n + 1 < |l|
    ensures var i, t := 1 + |Kept(l[1..n + 1])|, l[n + 1];
            && ring[i] == t
            && AfterScan(l, n + 1) == (if Reapable(t) then Drop(ring, i) else ring)
            && |Kept(l[1..n + 2])| == |Kept(l[1..n + 1])| + (if Reapable(t) then 0 else 1)
            && (Reapable(t) && t.proc in now.live ==> ReapAll(ps, kernel, Reaped(l[1..n + 2])) == Some(ReapOne(now, kernel, t.proc)))
            && (!Reapable(t) ==> ReapAll(ps, kernel, Reaped(l[1..n + 2])) == Some(now))
            && IdleOf(Kept(l[1..n + 2])) == (if !Reapable(t) && Runnable(t) then t.addr else IdleOf(Kept(l[1..n + 1])))
            && (!Eligible(t, wake) ==> NoneEligible(l[1..n + 2], wake))
  {
    hide AfterScan, Kept, Reaped, ReapAll, IdleOf, NoneEligible, ReapOne;
    ScanLonger(l, n);
    ScanSplit(l, n);
    ScanAt(l, n);
    var t, kept, dead := l[n + 1], Kept(l[1..n + 1]), Reaped(l[1..n + 1]);
    assert kept + [] == kept && dead + [] == dead;
    if !Reapable(t) { IdleSnoc(kept, t); }
    if t.proc in now.live { ReapSnoc(ps, kernel, dead, t, now); }
    if !Eligible(t, wake) { NoneEligibleSnoc(l[1..n + 1], t, wake); }
  }

  /** Where the scan stands: task `n` of the ring `l` was the last one passed, `i` tasks of them are left in `ring`. */
  ghost predicate ScanState(l: seq<Task>, ps: Procs, kernel: nat, wake: bool, n: nat, i: nat, ring: seq<Task>, now: Procs, idle: nat) {
    && n < |l| && i == 1 + |Kept(l[1..n + 1])| && ring == AfterScan(l, n)
    && Some(now) == ReapAll(ps, kernel, Reaped(l[1..n + 1])) && NoneEligible(l[1..n + 1], wake) && idle == IdleOf(Kept(l[1..n + 1]))
  }

  lemma {:induction false} ScanBegins(l: seq<Task>, ps: Procs, kernel: nat, wake: bool)
    requires l != []
    ensures ScanState(l, ps, kernel, wake, 0, 1, l, ps, 0)
  {
    ScanStart(l, ps, kernel, wake);
  }

  /** One turn of the scan, by the kind of task it meets. */
  lemma {:induction false} ScanTurn(l: seq<Task>, ps: Procs, kernel: nat, wake: bool, n: nat, i: nat, ring: seq<Task>, now: Procs, idle: nat)
    requires ScanState(l, ps, kernel, wake, n, i, ring, now, idle) && i < |ring|
    ensures n + 1 < |l| && ring[i] == l[n + 1]
    ensures var t := l[n + 1];
            && (Reapable(t) && t.proc in now.live ==>
                  ScanState(l, ps, kernel, wake, n + 1, i, Drop(ring, i), ReapOne(now, kernel, t.proc), idle))
            && (!Reapable(t) && !Eligible(t, wake) ==>
                  ScanState(l, ps, kernel, wake, n + 1, i + 1, ring, now, if Runnable(t) then t.addr else idle))
            && (Eligible(t, wake) ==>
                  && Scanned(l, wake) == n && ring == AfterScan(l, n) && idle == IdleOf(Kept(l[1..n + 1]))
                  && Some(now) == ReapAll(ps, kernel, Reaped(l[1..n + 1])))
  {
    hide AfterScan, Kept, Reaped, ReapAll, IdleOf, NoneEligible, ReapOne, Scanned;
    ScanStep(l, ps, kernel, wake, n, ring, now);
    if Eligible(l[n + 1], wake) { ScanStops(l, wake, n); }
  }

  lemma {:induction false} ScanEnds(l: seq<Task>, ps: Procs, kernel: nat, wake: bool, n: nat, i: nat, ring: seq<Task>, now: Procs, idle: nat)
    requires ScanState(l, ps, kernel, wake, n, i, ring, now, idle) && i == |ring|
    ensures n == |l| - 1 && Scanned(l, wake) == n && ring == AfterScan(l, n)
    ensures idle == IdleOf(Kept(l[1..n + 1])) && Some(now) == ReapAll(ps, kernel, Reaped(l[1..n + 1]))
  {
    hide AfterScan, Kept, Reaped, ReapAll, IdleOf, NoneEligible, Scanned;
    ScanWraps(l, wake, n, ring);
  }

  lemma {:induction false} ScanStops(l: seq<Task>, wake: bool, n: nat)
    requires n + 1 < |l| && Eligible(l[n + 1], wake) && NoneEligible(l[1..n + 1], wake)
    ensures Scanned(l, wake) == n
  {
    assert l[1..][..n] == l[1..n + 1];
    FirstEligibleIs(l[1..], wake, n);
  }

  lemma {:induction false} ScanWraps(l: seq<Task>, wake: bool, n: nat, ring: seq<Task>)
    requires n < |l| && ring == AfterScan(l, n) && 1 + |Kept(l[1..n + 1])| == |ring|
    requires NoneEligible(l[1..n + 1], wake)
    ensures n == |l| - 1 && Scanned(l, wake) == n
  {
    assert l[1..][..n] == l[1..n + 1];
    FirstEligibleIs(l[1..], wake, n);
  }

  lemma {:induction false} FirstEligibleIs(l: seq<Task>, wake: bool, n: nat)
    requires n <= |l| && NoneEligible(l[..n], wake) && (n < |l| ==> Eligible(l[n], wake))
    ensures FirstEligible(l, wake) == n
  {
    if n > 0 {
      assert l[..n][0] == l[0] && l[1..][..n - 1] == l[..n][1..];
      FirstEligibleIs(l[1..], wake, n - 1);
    }
  }

  lemma {:induction false} RotateHas(ring: seq<nat>, j: nat, a: nat)
    requires j <= |ring| && a in ring
    ensures a in ring[j..] + ring[..j]
  {
    var k :| 0 <= k < |ring| && ring[k] == a;
    assert (ring[j..] + ring[..j])[if k < j then k + (|ring| - j) else k - j] == a;
  }

  lemma {:induction false} StatesOf(l: seq<Task>, ps: Procs, kernel: nat, lastPid: int)
    requires Tallied(l, ps, kernel, lastPid)
    ensures forall i :: 0 <= i < |l| ==> l[i].state in {READY, RUNNING, BLOCKED, DEAD}
  {
  }

  lemma {:induction false} IdleCases(m: Memory, ring: seq<nat>, idle: nat)
    requires Ring(m, ring) && !Runnable(View(m, ring)[0]) && idle == IdleOf(View(m, ring)[1..])
    ensures var l := View(m, ring);
            && (idle == 0 ==> LastRunnable(l) == |l| && forall i :: 0 <= i < |l| ==> !Runnable(l[i]))
            && (idle != 0 ==> 0 < LastRunnable(l) < |l| && Runnable(l[LastRunnable(l)]))
            && (idle != 0 ==> idle == ring[LastRunnable(l)] != ring[0])
  {
    var l := View(m, ring);
    LastRunnableCons(l);
    var j := LastRunnable(l[1..]);
    if j < |l| - 1 { assert LinkAt(m, ring, j + 1); assert l[1..][j] == l[j + 1]; }
  }

  lemma {:induction false} LastRunnableCons(l: seq<Task>)
    requires l != [] && !Runnable(l[0])
    ensures LastRunnable(l) == LastRunnable(l[1..]) + 1
  {
    var j, k := LastRunnable(l), LastRunnable(l[1..]);
    assert forall i :: 0 <= i < |l| - 1 ==> l[1..][i] == l[i + 1];
    assert j < |l| ==> j > 0 && Runnable(l[1..][j - 1]);
  }

  /** The cases of `RunNext` in terms of the ring the scan leaves. */
  lemma {:induction false} RunNextCases(l: seq<Task>, wake: bool, ring: seq<Task>)
    requires l != [] && ring == AfterScan(l, Scanned(l, wake))
    ensures var n := Scanned(l, wake);
            && (n < |l| - 1 ==> 1 + |Kept(l[1..n + 1])| < |ring| && ring[1 + |Kept(l[1..n + 1])|] == l[n + 1])
            && (n < |l| - 1 ==> RunNext(l, wake) == Rotate(ring, 1 + |Kept(l[1..n + 1])|))
            && ring[0] == l[0]
            && (n == |l| - 1 ==> ring[1..] == Kept(l[1..n + 1]))
            && (n == |l| - 1 && Runnable(l[0]) ==> RunNext(l, wake) == ring)
            && (n == |l| - 1 && !Runnable(l[0]) ==>
                  RunNext(l, wake) == var j := LastRunnable(ring); if j < |ring| then Rotate(ring, j) else ring)
  {
    hide Kept, LastRunnable, FirstEligible, NoneEligible, Scanned, Rotate;
    var n := Scanned(l, wake);
    if n < |l| - 1 {
      ScanAt(l, n);
    } else {
      assert l[n + 1..] == [];
    }
  }

  /** The scan only comes back to the current task when it went all the way round. */
  lemma {:induction false} ScanCurrent(m: Memory, ring: seq<nat>, l: seq<Task>, n: nat, next: nat)
    requires Ring(m, ring) && n < |l| && next == ring[0]
    requires n < |l| - 1 ==> 1 + |Kept(l[1..n + 1])| < |ring| && View(m, ring)[1 + |Kept(l[1..n + 1])|] == l[n + 1]
    requires n < |l| - 1 ==> next == l[n + 1].addr
    ensures n == |l| - 1
  {
  }

  lemma {:induction false} LastThread(procs: map<nat, Proc>, p: nat)
    requires p in procs
    ensures procs[p := procs[p].(threads := procs[p].threads - 1)] - {p} == procs - {p}
  {
  }

  /** After a task is unlinked, its predecessor, its successor and every other task are still in the ring. */
  lemma {:induction false} NextHead(m: Memory, ring: seq<nat>, i: nat)
    requires Ring(m, ring) && 0 < i < |ring|
    ensures ring[i - 1] in Drop(ring, i) && m[ring[i]].next in Drop(ring, i)
    ensures forall a :: a in ring && a != ring[i] ==> a in Drop(ring, i)
    ensures ring[i] != ring[i - 1]
  {
    var d := Drop(ring, i);
    assert d[i - 1] == ring[i - 1] && d[0] == ring[0];
    assert LinkAt(m, ring, i);
    assert i + 1 < |ring| ==> d[i] == ring[i + 1];
    forall a | a in ring && a != ring[i] ensures a in d {
      var k :| 0 <= k < |ring| && ring[k] == a;
      assert d[if k < i then k else k - 1] == a;
    }
  }

  ghost function WithState(l: seq<Task>, a: nat, state: int): seq<Task> {
    seq(|l|, i requires 0 <= i < |l| => if l[i].addr == a then l[i].(state := state) else l[i])
  }

  lemma {:induction false} StateNumbers(l: seq<Task>, a: nat, state: int, lastTid: int)
    requires Numbered(l, lastTid)
    ensures Numbered(WithState(l, a, state), lastTid)
  {
    NumberedStates(l, WithState(l, a, state), lastTid);
  }

  lemma {:induction false} StateStep(m: Memory, ring: seq<nat>, a: nat, state: int, ps: Procs, kernel: nat, lastPid: int)
    requires Ring(m, ring) && Tallied(View(m, ring), ps, kernel, lastPid)
    requires a in ring && state in {READY, RUNNING, BLOCKED, DEAD}
    ensures a in m
    ensures var m' := m[a := m[a].(state := state)];
            && Ring(m', ring) && View(m', ring) == WithState(View(m, ring), a, state)
            && Tallied(View(m', ring), ps, kernel, lastPid)
  {
    var k :| 0 <= k < |ring| && ring[k] == a;
    var m' := m[a := m[a].(state := state)];
    forall i | 0 <= i < |ring| ensures LinkAt(m', ring, i) { assert LinkAt(m, ring, i); }
    TalliedStates(View(m, ring), View(m', ring), ps, kernel, lastPid);
  }

  lemma {:induction false} CurrentIn(m: Memory, ring: seq<nat>)
    requires Ring(m, ring)
    ensures ring[0] in ring
  {
  }

  ghost function IndexOf(ring: seq<nat>, a: nat): (k: nat)
    requires a in ring
    ensures k < |ring| && ring[k] == a
  {
    if ring[0] == a then 0 else 1 + IndexOf(ring[1..], a)
  }

  lemma {:induction false} InsertHas(ring: seq<nat>, i: nat, x: nat, a: nat)
    requires i <= |ring| && a in ring && i > 0
    ensures a in Insert(ring, i, x) && Insert(ring, i, x)[0] == ring[0]
  {
    var k := IndexOf(ring, a);
    assert Insert(ring, i, x)[if k < i then k else k + 1] == a;
  }

  predicate Names(ps: Procs, t: Task, pid: int) {
    t.proc in ps.live && ps.live[t.proc].pid == pid
  }

  ghost predicate AnyNamed(l: seq<Task>, ps: Procs, pid: int) {
    exists i :: 0 <= i < |l| && Names(ps, l[i], pid)
  }

  ghost predicate NamedBefore(before: Memory, lr: seq<nat>, i: nat, ps: Procs, pid: int)
    requires i <= |lr|
  {
    exists k :: 0 <= k < i && Names(ps, TaskAt(before, lr[k]), pid)
  }

  ghost function Killed(l: seq<Task>, ps: Procs, pid: int): seq<Task> {
    seq(|l|, i requires 0 <= i < |l| => if Names(ps, l[i], pid) then l[i].(state := DEAD) else l[i])
  }

  lemma {:induction false} KilledAt(l: seq<Task>, ps: Procs, pid: int)
    ensures |Killed(l, ps, pid)| == |l|
    ensures forall i :: 0 <= i < |l| ==>
              Killed(l, ps, pid)[i] == if l[i].proc in ps.live && ps.live[l[i].proc].pid == pid then l[i].(state := 3) else l[i]
  {
  }

  lemma {:induction false} KillNumbers(l: seq<Task>, ps: Procs, pid: int, lastTid: int)
    requires Numbered(l, lastTid)
    ensures Numbered(Killed(l, ps, pid), lastTid)
  {
    NumberedStates(l, Killed(l, ps, pid), lastTid);
  }

  /** The first `i` tasks of `lr` have been visited by the kill loop, the others are untouched. */
  ghost predicate PartKilled(before: Memory, m: Memory, lr: seq<nat>, i: nat, ps: Procs, pid: int) {
    forall k :: 0 <= k < |lr| ==>
      && lr[k] in before && lr[k] in m
      && m[lr[k]] == if k < i && Names(ps, TaskAt(before, lr[k]), pid) then before[lr[k]].(state := DEAD) else before[lr[k]]
  }

  lemma {:induction false} KillStart(m: Memory, ring: seq<nat>, h: nat, ps: Procs, pid: int)
    requires Ring(m, ring) && h < |ring|
    ensures var lr := ring[h..] + ring[..h];
            lr[0] == ring[h] && |lr| > 0 && PartKilled(m, m, lr, 0, ps, pid) && !NamedBefore(m, lr, 0, ps, pid)
  {
    RingRotate(m, ring, h);
  }

  lemma {:induction false} KillStep(before: Memory, m: Memory, ring: seq<nat>, h: nat, i: nat, ps: Procs, kernel: nat, lastPid: int, pid: int)
    requires Ring(before, ring) && h < |ring| && Tallied(View(before, ring), ps, kernel, lastPid)
    requires var lr := ring[h..] + ring[..h]; i < |lr| && PartKilled(before, m, lr, i, ps, pid)
    ensures var lr := ring[h..] + ring[..h];
            && lr[i] in m && m[lr[i]].proc in ps.live && m[lr[i]].next == (if i + 1 < |lr| then lr[i + 1] else lr[0])
            && (i + 1 < |lr| ==> lr[i + 1] != lr[0])
            && (NamedBefore(before, lr, i + 1, ps, pid) <==> NamedBefore(before, lr, i, ps, pid) || Names(ps, TaskAt(before, lr[i]), pid))
            && (Names(ps, TaskAt(before, lr[i]), pid) <==> ps.live[m[lr[i]].proc].pid == pid)
            && PartKilled(before, if Names(ps, TaskAt(before, lr[i]), pid) then m[lr[i] := m[lr[i]].(state := DEAD)] else m, lr, i + 1, ps, pid)
  {
    hide Ring, PartKilled, NamedBefore, Tallied, Names;
    KillNext(before, m, ring, h, i, ps, kernel, lastPid, pid);
    KillMark(before, m, ring[h..] + ring[..h], i, ps, pid);
  }

  lemma {:induction false} KillNext(before: Memory, m: Memory, ring: seq<nat>, h: nat, i: nat, ps: Procs, kernel: nat, lastPid: int, pid: int)
    requires Ring(before, ring) && h < |ring| && Tallied(View(before, ring), ps, kernel, lastPid)
    requires var lr := ring[h..] + ring[..h]; i < |lr| && PartKilled(before, m, lr, i, ps, pid)
    ensures var lr := ring[h..] + ring[..h];
            && lr[i] in m && lr[i] in before && m[lr[i]].proc in ps.live && m[lr[i]].next == (if i + 1 < |lr| then lr[i + 1] else lr[0])
            && (i + 1 < |lr| ==> lr[i + 1] != lr[0]) && Distinct(lr)
  {
    hide NamedBefore, Names, View;
    RingRotate(before, ring, h);
    var lr := ring[h..] + ring[..h];
    assert LinkAt(before, lr, i);
    assert TaskAt(before, lr[i]) in View(before, ring) by {
      assert View(before, ring)[if i < |ring| - h then i + h else i + h - |ring|] == TaskAt(before, lr[i]);
    }
  }

  lemma {:induction false} KillMark(before: Memory, m: Memory, lr: seq<nat>, i: nat, ps: Procs, pid: int)
    requires i < |lr| && Distinct(lr) && PartKilled(before, m, lr, i, ps, pid) && lr[i] in m && lr[i] in before && m[lr[i]].proc in ps.live
    ensures NamedBefore(before, lr, i + 1, ps, pid) <==> NamedBefore(before, lr, i, ps, pid) || Names(ps, TaskAt(before, lr[i]), pid)
    ensures Names(ps, TaskAt(before, lr[i]), pid) <==> ps.live[m[lr[i]].proc].pid == pid
    ensures PartKilled(before, if Names(ps, TaskAt(before, lr[i]), pid) then m[lr[i] := m[lr[i]].(state := DEAD)] else m, lr, i + 1, ps, pid)
  {
  }

  lemma {:induction false} KillDone(before: Memory, m: Memory, ring: seq<nat>, h: nat, ps: Procs, kernel: nat, lastPid: int, pid: int)
    requires Ring(before, ring) && h < |ring| && Tallied(View(before, ring), ps, kernel, lastPid)
    requires PartKilled(before, m, ring[h..] + ring[..h], |ring|, ps, pid)
    ensures Ring(m, ring) && View(m, ring) == Killed(View(before, ring), ps, pid)
    ensures Tallied(View(m, ring), ps, kernel, lastPid)
  {
    var lr := ring[h..] + ring[..h];
    forall i | 0 <= i < |ring|
      ensures ring[i] in m
      ensures m[ring[i]] == if Names(ps, TaskAt(before, ring[i]), pid) then before[ring[i]].(state := DEAD) else before[ring[i]]
    {
      assert lr[if i < h then i + (|ring| - h) else i - h] == ring[i];
    }
    forall i | 0 <= i < |ring| ensures LinkAt(m, ring, i) { assert LinkAt(before, ring, i); }
    TalliedStates(View(before, ring), View(m, ring), ps, kernel, lastPid);
  }

  lemma {:induction false} KillFound(before: Memory, ring: seq<nat>, h: nat, ps: Procs, pid: int, found: bool)
    requires h < |ring|
    requires found <==> NamedBefore(before, ring[h..] + ring[..h], |ring|, ps, pid)
    ensures found <==> AnyNamed(View(before, ring), ps, pid)
  {
    var lr, l := ring[h..] + ring[..h], View(before, ring);
    if found {
      var k :| 0 <= k < |lr| && Names(ps, TaskAt(before, lr[k]), pid);
      assert l[if k < |ring| - h then k + h else k + h - |ring|] == TaskAt(before, lr[k]);
    }
    if i :| 0 <= i < |ring| && Names(ps, l[i], pid) {
      assert TaskAt(before, lr[if i < h then i + (|ring| - h) else i - h]) == l[i];
    }
  }
}
