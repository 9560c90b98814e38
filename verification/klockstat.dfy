// The lock statistics program: one task waits for a lock, gets it or gives up, and
// releases it; the release adds the finished session to the statistics of its key.
module Klockstat {
  import opened Machine

  // targLock, targTgid and targPid filter when nonzero.
  datatype Config = Config(targTgid: U32, targPid: U32, targLock: U64, perThread: bool)

  datatype TaskLock = TaskLock(taskId: U64, lockPtr: U64)

  datatype Holder = Holder(stackId: U32, taskId: U64, tryAt: U64, acqAt: U64, relAt: U64, lockPtr: U64)

  // The acq_* fields and the hld_* fields of a lock_stat have the same shape.
  datatype Half = Half(count: U64, total: U64, max: U64, maxId: U64, maxLock: U64, maxComm: string)

  datatype LockStat = LockStat(acq: Half, hld: Half)

  const ZERO_HALF := Half(0, 0, 0, 0, 0, "")
  const ZERO_STAT := LockStat(ZERO_HALF, ZERO_HALF)

  datatype Maps = Maps(holders: map<TaskLock, Holder>, stats: map<U32, LockStat>)

  const EMPTY_MAPS := Maps(map[], map[])

  // The four things a probe can report about a lock.
  datatype Op =
    | Contend(tl: TaskLock, stackId: int, now: U64)
    | Acquire(tl: TaskLock, now: U64)
    | Abort(tl: TaskLock)
    | Release(tl: TaskLock, now: U64, comm: string)

  predicate TracingTask(cfg: Config, taskId: U64) {
    && (cfg.targTgid != 0 ==> cfg.targTgid == taskId / TWO32)
    && (cfg.targPid != 0 ==> cfg.targPid == taskId % TWO32)
  }

  predicate Traced(cfg: Config, tl: TaskLock) {
    && (cfg.targLock != 0 ==> cfg.targLock == tl.lockPtr)
    && TracingTask(cfg, tl.taskId)
  }

  // A stack id is recorded only when bpf_get_stackid returned a nonnegative s32.
  predicate Stacked(stackId: int) {
    0 <= stackId < TWO31
  }

  function Key(cfg: Config, h: Holder): U32 {
    if cfg.perThread then h.taskId % TWO32 else h.stackId
  }

  function Bump(h: Half, delta: U64, id: U64, lock: U64, comm: string, named: bool): Half {
    var counted := h.(count := Wrap64(h.count + 1), total := Wrap64(h.total + delta));
    if delta > h.max then
      counted.(max := delta, maxId := id, maxLock := lock, maxComm := if named then comm else h.maxComm)
    else counted
  }

  function Fresh(cfg: Config, comm: string): LockStat {
    if cfg.perThread then ZERO_STAT.(acq := ZERO_HALF.(maxComm := comm)) else ZERO_STAT
  }

  function AccountInto(cfg: Config, ls: LockStat, h: Holder, comm: string): LockStat {
    LockStat(
      Bump(ls.acq, Wrap64(h.acqAt - h.tryAt), h.taskId, h.lockPtr, comm, !cfg.perThread),
      Bump(ls.hld, Wrap64(h.relAt - h.acqAt), h.taskId, h.lockPtr, comm, !cfg.perThread))
  }

  function Accounted(cfg: Config, stats: map<U32, LockStat>, h: Holder, comm: string): map<U32, LockStat> {
    var key := Key(cfg, h);
    stats[key := AccountInto(cfg, if key in stats then stats[key] else Fresh(cfg, comm), h, comm)]
  }

  function Apply(cfg: Config, m: Maps, op: Op): Maps {
    if !Traced(cfg, op.tl) then m
    else match op
      case Contend(tl, stackId, now) =>
        if Stacked(stackId) then m.(holders := m.holders[tl := Holder(stackId, tl.taskId, now, 0, 0, tl.lockPtr)])
        else m
      case Acquire(tl, now) =>
        if tl in m.holders then m.(holders := m.holders[tl := m.holders[tl].(acqAt := now)]) else m
      case Abort(tl) =>
        m.(holders := m.holders - {tl})
      case Release(tl, now, comm) =>
        if tl in m.holders then
          Maps(m.holders - {tl}, Accounted(cfg, m.stats, m.holders[tl].(relAt := now), comm))
        else m
  }

  function ApplyAll(cfg: Config, m: Maps, ops: seq<Op>): Maps
    decreases |ops|
  {
    if ops == [] then m else ApplyAll(cfg, Apply(cfg, m, ops[0]), ops[1..])
  }

  lemma {:induction false} ApplyAllAppend(cfg: Config, m: Maps, a: seq<Op>, b: seq<Op>)
    ensures ApplyAll(cfg, m, a + b) == ApplyAll(cfg, ApplyAll(cfg, m, a), b)
    decreases |a|
  {
    if a == [] {
      assert a + b == b;
    } else {
      assert (a + b)[1..] == a[1..] + b;
      ApplyAllAppend(cfg, Apply(cfg, m, a[0]), a[1..], b);
    }
  }

  lemma ApplyShort(cfg: Config, m: Maps, a: Op, b: Op)
    ensures ApplyAll(cfg, m, [a]) == Apply(cfg, m, a)
    ensures ApplyAll(cfg, m, [a, b]) == Apply(cfg, Apply(cfg, m, a), b)
  {
    assert [a][1..] == [];
    assert [a, b][1..] == [b];
    assert ApplyAll(cfg, Apply(cfg, m, a), [b]) == ApplyAll(cfg, Apply(cfg, Apply(cfg, m, a), b), []);
  }

  // ---------------------------------------------------------------------------
  // The probe handlers
  // ---------------------------------------------------------------------------

  datatype Fn =
    | MutexLock | MutexTrylock | MutexLockInterruptible | MutexLockKillable | MutexUnlock
    | DownRead | DownReadTrylock | DownReadInterruptible | DownReadKillable | UpRead
    | DownWrite | DownWriteTrylock | DownWriteKillable | UpWrite

  predicate Unlocks(fn: Fn) {
    fn.MutexUnlock? || fn.UpRead? || fn.UpWrite?
  }

  predicate Tries(fn: Fn) {
    fn.MutexTrylock? || fn.DownReadTrylock? || fn.DownWriteTrylock?
  }

  predicate MayAbort(fn: Fn) {
    fn.MutexLockInterruptible? || fn.MutexLockKillable? || fn.DownReadInterruptible?
    || fn.DownReadKillable? || fn.DownWriteKillable?
  }

  // What the kernel helpers return while a handler runs: the stack id, the clock at the
  // first and the second reading, and the command name of the task.
  datatype Env = Env(stackId: int, now: U64, later: U64, comm: string)

  // A thread enters or leaves a lock function. `lock` is its argument; the return probe of
  // the kprobe family does not see it.
  datatype Event =
    | Enter(task: U64, fn: Fn, lock: U64, env: Env)
    | Exit(task: U64, fn: Fn, lock: U64, ret: int, env: Env)

  function Tid(task: U64): U32 {
    task % TWO32
  }

  function EnterOps(task: U64, fn: Fn, lock: U64, env: Env): seq<Op> {
    var tl := TaskLock(task, lock);
    if Unlocks(fn) then [Release(tl, env.now, env.comm)]
    else if Tries(fn) then []
    else [Contend(tl, env.stackId, env.now)]
  }

  function ExitOps(task: U64, fn: Fn, lock: U64, ret: int, env: Env): seq<Op> {
    var tl := TaskLock(task, lock);
    if Unlocks(fn) then []
    else if Tries(fn) then
      if (if fn.MutexTrylock? then ret != 0 else ret == 1)
      then [Contend(tl, env.stackId, env.now), Acquire(tl, env.later)]
      else []
    else if MayAbort(fn) && ret != 0 then [Abort(tl)]
    else [Acquire(tl, env.now)]
  }

  lemma EventShort(cfg: Config, m: Maps, task: U64, fn: Fn, lock: U64, ret: int, env: Env)
    ensures var tl := TaskLock(task, lock);
            ApplyAll(cfg, m, EnterOps(task, fn, lock, env)) ==
              if Unlocks(fn) then Apply(cfg, m, Release(tl, env.now, env.comm))
              else if Tries(fn) then m
              else Apply(cfg, m, Contend(tl, env.stackId, env.now))
    ensures var tl := TaskLock(task, lock);
            ApplyAll(cfg, m, ExitOps(task, fn, lock, ret, env)) ==
              if Unlocks(fn) then m
              else if Tries(fn) then
                if (if fn.MutexTrylock? then ret != 0 else ret == 1)
                then Apply(cfg, Apply(cfg, m, Contend(tl, env.stackId, env.now)), Acquire(tl, env.later))
                else m
              else if MayAbort(fn) && ret != 0 then Apply(cfg, m, Abort(tl))
              else Apply(cfg, m, Acquire(tl, env.now))
  {
    var tl := TaskLock(task, lock);
    ApplyShort(cfg, m, Contend(tl, env.stackId, env.now), Acquire(tl, env.later));
    ApplyShort(cfg, m, Acquire(tl, env.now), Abort(tl));
    ApplyShort(cfg, m, Abort(tl), Abort(tl));
    ApplyShort(cfg, m, Release(tl, env.now, env.comm), Abort(tl));
  }

  function FentryOps(e: Event): seq<Op> {
    match e
    case Enter(task, fn, lock, env) => EnterOps(task, fn, lock, env)
    case Exit(task, fn, lock, ret, env) => ExitOps(task, fn, lock, ret, env)
  }

  datatype State = State(maps: Maps, locks: map<U32, U64>)

  function KprobeStep(cfg: Config, s: State, e: Event): State {
    match e
    case Enter(task, fn, lock, env) =>
      State(ApplyAll(cfg, s.maps, EnterOps(task, fn, lock, env)),
            if Unlocks(fn) then s.locks else s.locks[Tid(task) := lock])
    case Exit(task, fn, _, ret, env) =>
      if Unlocks(fn) || Tid(task) !in s.locks then s
      else
        State(ApplyAll(cfg, s.maps, ExitOps(task, fn, s.locks[Tid(task)], ret, env)),
              s.locks - {Tid(task)})
  }

  function FentryRun(cfg: Config, m: Maps, run: seq<Event>): Maps
    decreases |run|
  {
    if run == [] then m else FentryRun(cfg, ApplyAll(cfg, m, FentryOps(run[0])), run[1..])
  }

  function KprobeRun(cfg: Config, s: State, run: seq<Event>): State
    decreases |run|
  {
    if run == [] then s else KprobeRun(cfg, KprobeStep(cfg, s, run[0]), run[1..])
  }

  // The program itself: the three hash maps it updates, and its handlers.
  class Program {
    const cfg: Config
    var holders: map<TaskLock, Holder>
    var stats: map<U32, LockStat>
    var locks: map<U32, U64>

    constructor (cfg: Config)
      ensures this.cfg == cfg && View() == State(EMPTY_MAPS, map[])
    {
      this.cfg := cfg;
      holders, stats, locks := map[], map[], map[];
    }

    function View(): State
      reads this
    {
      State(Maps(holders, stats), locks)
    }

    method LockContended(task: U64, lock: U64, stackId: int, now: U64)
      modifies this`holders
      ensures View().maps == Apply(cfg, old(View()).maps, Contend(TaskLock(task, lock), stackId, now))
    {
      if cfg.targLock != 0 && cfg.targLock != lock {
        return;
      }
      if !TracingTask(cfg, task) {
        return;
      }
      if stackId < 0 || stackId >= TWO31 {
        return;
      }
      var li := Holder(stackId, task, now, 0, 0, lock);
      holders := holders[TaskLock(task, lock) := li];
    }

    method LockAborted(task: U64, lock: U64)
      modifies this`holders
      ensures View().maps == Apply(cfg, old(View()).maps, Abort(TaskLock(task, lock)))
    {
      if cfg.targLock != 0 && cfg.targLock != lock {
        return;
      }
      if !TracingTask(cfg, task) {
        return;
      }
      holders := holders - {TaskLock(task, lock)};
    }

    method LockAcquired(task: U64, lock: U64, now: U64)
      modifies this`holders
      ensures View().maps == Apply(cfg, old(View()).maps, Acquire(TaskLock(task, lock), now))
    {
      if cfg.targLock != 0 && cfg.targLock != lock {
        return;
      }
      if !TracingTask(cfg, task) {
        return;
      }
      var tl := TaskLock(task, lock);
      if tl !in holders {
        return;
      }
      holders := holders[tl := holders[tl].(acqAt := now)];
    }

    // The statements that account has once for the acq_* fields and once for the hld_* fields.
    method AccountHalf(h0: Half, delta: U64, li: Holder, comm: string) returns (h: Half)
      ensures h == Bump(h0, delta, li.taskId, li.lockPtr, comm, !cfg.perThread)
    {
      h := h0;
      h := h.(count := Wrap64(h.count + 1));
      h := h.(total := Wrap64(h.total + delta));
      if delta > h.max {
        h := h.(max := delta, maxId := li.taskId, maxLock := li.lockPtr);
        if !cfg.perThread {
          h := h.(maxComm := comm);
        }
      }
    }

    method Account(li: Holder, comm: string)
      modifies this`stats
      ensures stats == Accounted(cfg, old(stats), li, comm)
    {
      var key := li.stackId;
      if cfg.perThread {
        key := li.taskId % TWO32;
      }
      var ls := ZERO_STAT;
      if key in stats {
        ls := stats[key];
      } else if cfg.perThread {
        ls := ls.(acq := ls.acq.(maxComm := comm));
      }

      var acq := AccountHalf(ls.acq, Wrap64(li.acqAt - li.tryAt), li, comm);
      var hld := AccountHalf(ls.hld, Wrap64(li.relAt - li.acqAt), li, comm);
      stats := stats[key := LockStat(acq, hld)];
    }

    method LockReleased(task: U64, lock: U64, now: U64, comm: string)
      modifies this`holders, this`stats
      ensures View().maps == Apply(cfg, old(View()).maps, Release(TaskLock(task, lock), now, comm))
    {
      if cfg.targLock != 0 && cfg.targLock != lock {
        return;
      }
      if !TracingTask(cfg, task) {
        return;
      }
      var tl := TaskLock(task, lock);
      if tl !in holders {
        return;
      }
      var li := holders[tl].(relAt := now);
      holders := holders[tl := li];
      Account(li, comm);
      holders := holders - {tl};
    }

    // The fentry and fexit programs read the lock from the traced function's arguments.
    method Fentry(e: Event)
      modifies this`holders, this`stats
      ensures View().maps == ApplyAll(cfg, old(View()).maps, FentryOps(e))
      ensures locks == old(locks)
    {
      match e
      case Enter(task, fn, lock, env) =>
        EventShort(cfg, View().maps, task, fn, lock, 0, env);
        match fn {
          case MutexUnlock | UpRead | UpWrite =>
            LockReleased(task, lock, env.now, env.comm);
          case MutexTrylock | DownReadTrylock | DownWriteTrylock =>
            // no program is attached here
          case _ =>
            LockContended(task, lock, env.stackId, env.now);
        }
      case Exit(task, fn, lock, ret, env) =>
        EventShort(cfg, View().maps, task, fn, lock, ret, env);
        match fn {
          case MutexLock | DownRead | DownWrite =>
            LockAcquired(task, lock, env.now);
          case MutexTrylock =>
            if ret != 0 {
              LockContended(task, lock, env.stackId, env.now);
              LockAcquired(task, lock, env.later);
            }
          case DownReadTrylock | DownWriteTrylock =>
            if ret == 1 {
              LockContended(task, lock, env.stackId, env.now);
              LockAcquired(task, lock, env.later);
            }
          case MutexUnlock | UpRead | UpWrite =>
            // no program is attached here
          case _ =>
            if ret != 0 {
              LockAborted(task, lock);
            } else {
              LockAcquired(task, lock, env.now);
            }
        }
    }

    // The kprobe programs store the lock under the thread id on entry, and the kretprobe
    // programs take it from there.
    method Kprobe(e: Event)
      modifies this
      ensures View() == KprobeStep(cfg, old(View()), e)
    {
      match e
      case Enter(task, fn, lock, env) =>
        EventShort(cfg, View().maps, task, fn, lock, 0, env);
        match fn {
          case MutexUnlock | UpRead | UpWrite =>
            LockReleased(task, lock, env.now, env.comm);
          case MutexTrylock | DownReadTrylock | DownWriteTrylock =>
            locks := locks[Tid(task) := lock];
          case _ =>
            locks := locks[Tid(task) := lock];
            LockContended(task, lock, env.stackId, env.now);
        }
      case Exit(task, fn, _, ret, env) =>
        if Unlocks(fn) || Tid(task) !in locks {
          return;
        }
        var lock := locks[Tid(task)];
        EventShort(cfg, View().maps, task, fn, lock, ret, env);
        locks := locks - {Tid(task)};
        match fn {
          case MutexLock | DownRead | DownWrite =>
            LockAcquired(task, lock, env.now);
          case MutexTrylock =>
            if ret != 0 {
              LockContended(task, lock, env.stackId, env.now);
              LockAcquired(task, lock, env.later);
            }
          case DownReadTrylock | DownWriteTrylock =>
            if ret == 1 {
              LockContended(task, lock, env.stackId, env.now);
              LockAcquired(task, lock, env.later);
            }
          case MutexLockInterruptible | MutexLockKillable
             | DownReadInterruptible | DownReadKillable | DownWriteKillable =>
            if ret != 0 {
              LockAborted(task, lock);
            } else {
              LockAcquired(task, lock, env.now);
            }
        }
    }
  }

  // ---------------------------------------------------------------------------
  // Refinement: the kprobe family computes what the fentry family computes
  // ---------------------------------------------------------------------------

  datatype Call = Call(fn: Fn, lock: U64)

  // The lock function each thread is inside, after one event.
  function Inside(open: map<U32, Call>, e: Event): map<U32, Call> {
    if Unlocks(e.fn) then open
    else match e
      case Enter(task, fn, lock, _) => open[Tid(task) := Call(fn, lock)]
      case Exit(task, _, _, _, _) => open - {Tid(task)}
  }

  function InsideAfter(open: map<U32, Call>, run: seq<Event>): map<U32, Call>
    decreases |run|
  {
    if run == [] then open else InsideAfter(Inside(open, run[0]), run[1..])
  }

  // Each thread's entries to and exits from lock functions alternate, and an exit leaves the
  // function, and carries the argument, of the entry before it.
  predicate Alternates(open: map<U32, Call>, run: seq<Event>)
    decreases |run|
  {
    run == []
    || (&& (Unlocks(run[0].fn)
            || match run[0]
               case Enter(task, _, _, _) => Tid(task) !in open
               case Exit(task, fn, lock, _, _) => Tid(task) in open && open[Tid(task)] == Call(fn, lock))
        && Alternates(Inside(open, run[0]), run[1..]))
  }

  function LocksOf(open: map<U32, Call>): map<U32, U64> {
    map tid | tid in open :: open[tid].lock
  }

  lemma {:induction false} KprobeRefinesFentryFrom(cfg: Config, m: Maps, open: map<U32, Call>, run: seq<Event>)
    requires Alternates(open, run)
    ensures KprobeRun(cfg, State(m, LocksOf(open)), run)
         == State(FentryRun(cfg, m, run), LocksOf(InsideAfter(open, run)))
    decreases |run|
  {
    if run != [] {
      var e := run[0];
      var s := State(m, LocksOf(open));
      assert KprobeStep(cfg, s, e) == State(ApplyAll(cfg, m, FentryOps(e)), LocksOf(Inside(open, e)));
      KprobeRefinesFentryFrom(cfg, ApplyAll(cfg, m, FentryOps(e)), Inside(open, e), run[1..]);
    }
  }

  // For every interleaving of threads over all lock functions the two families build the same
  // lockholder_map and stat_map, and the locks map holds exactly the threads inside a lock
  // function with the lock they asked for, so nothing is left behind.
  lemma KprobeRefinesFentry(cfg: Config, run: seq<Event>)
    requires Alternates(map[], run)
    ensures KprobeRun(cfg, State(EMPTY_MAPS, map[]), run).maps == FentryRun(cfg, EMPTY_MAPS, run)
    ensures KprobeRun(cfg, State(EMPTY_MAPS, map[]), run).locks == LocksOf(InsideAfter(map[], run))
  {
    assert LocksOf(map[]) == map[];
    AlternatingExitsAgree(cfg, EMPTY_MAPS, map[], run);
    RefinesExactly(cfg, State(EMPTY_MAPS, map[]), run);
    SameAtEnd(cfg, State(EMPTY_MAPS, map[]), EMPTY_MAPS, run);
    KprobeRefinesFentryFrom(cfg, EMPTY_MAPS, map[], run);
  }

  // ---------------------------------------------------------------------------
  // Exactly when the two families agree
  // ---------------------------------------------------------------------------

  // Would an exit that concerns this lock change the maps? A filtered lock never does; a trylock
  // that succeeds does unless the session it starts is there already; giving up does when there is
  // a session; and acquiring does when there is one with another time.
  predicate ExitChanges(cfg: Config, m: Maps, tl: TaskLock, fn: Fn, ret: int, env: Env) {
    Traced(cfg, tl) && !Unlocks(fn) &&
    if Tries(fn) then
      && (if fn.MutexTrylock? then ret != 0 else ret == 1)
      && (if Stacked(env.stackId) then
            tl !in m.holders || m.holders[tl] != Holder(env.stackId, tl.taskId, env.now, env.later, 0, tl.lockPtr)
          else tl in m.holders && m.holders[tl].acqAt != env.later)
    else if MayAbort(fn) && ret != 0 then tl in m.holders
    else tl in m.holders && m.holders[tl].acqAt != env.now
  }

  // The exit either finds its own lock under the thread id, or it concerns no lock of which
  // there is anything to record.
  predicate ExitAgrees(cfg: Config, s: State, e: Event) {
    e.Enter? || Unlocks(e.fn) || (
      var tid := Tid(e.task);
      || (tid in s.locks && s.locks[tid] == e.lock)
      || (&& !ExitChanges(cfg, s.maps, TaskLock(e.task, e.lock), e.fn, e.ret, e.env)
          && (tid in s.locks ==>
                !ExitChanges(cfg, s.maps, TaskLock(e.task, s.locks[tid]), e.fn, e.ret, e.env))))
  }

  predicate ExitsAgree(cfg: Config, s: State, run: seq<Event>)
    decreases |run|
  {
    run == [] || (ExitAgrees(cfg, s, run[0]) && ExitsAgree(cfg, KprobeStep(cfg, s, run[0]), run[1..]))
  }

  // The two families have the same maps in every state of the run.
  predicate SameThroughout(cfg: Config, s: State, m: Maps, run: seq<Event>)
    decreases |run|
  {
    s.maps == m &&
    (run != [] ==> SameThroughout(cfg, KprobeStep(cfg, s, run[0]), ApplyAll(cfg, m, FentryOps(run[0])), run[1..]))
  }

  lemma ExitChangesExactly(cfg: Config, m: Maps, tl: TaskLock, fn: Fn, ret: int, env: Env)
    ensures ApplyAll(cfg, m, ExitOps(tl.taskId, fn, tl.lockPtr, ret, env)) != m
      <==> ExitChanges(cfg, m, tl, fn, ret, env)
    ensures forall other :: other != tl ==>
      var m' := ApplyAll(cfg, m, ExitOps(tl.taskId, fn, tl.lockPtr, ret, env));
      (other in m'.holders <==> other in m.holders)
      && (other in m.holders ==> m'.holders[other] == m.holders[other])
    ensures ApplyAll(cfg, m, ExitOps(tl.taskId, fn, tl.lockPtr, ret, env)).stats == m.stats
  {
    EventShort(cfg, m, tl.taskId, fn, tl.lockPtr, ret, env);
    var m' := ApplyAll(cfg, m, ExitOps(tl.taskId, fn, tl.lockPtr, ret, env));
    if !ExitChanges(cfg, m, tl, fn, ret, env) {
      assert m'.holders == m.holders;
    } else {
      assert (tl in m'.holders) != (tl in m.holders) || m'.holders[tl] != m.holders[tl];
    }
  }

  lemma ExitAgreesExactly(cfg: Config, s: State, e: Event)
    ensures KprobeStep(cfg, s, e).maps == ApplyAll(cfg, s.maps, FentryOps(e)) <==> ExitAgrees(cfg, s, e)
  {
    if e.Exit? && !Unlocks(e.fn) {
      var own := TaskLock(e.task, e.lock);
      ExitChangesExactly(cfg, s.maps, own, e.fn, e.ret, e.env);
      if Tid(e.task) in s.locks {
        var found := TaskLock(e.task, s.locks[Tid(e.task)]);
        ExitChangesExactly(cfg, s.maps, found, e.fn, e.ret, e.env);
        if found != own {
          DifferentLocks(s.maps, FentryAfter(cfg, s.maps, e), KprobeStep(cfg, s, e).maps, own, found);
        }
      }
    }
  }

  function FentryAfter(cfg: Config, m: Maps, e: Event): Maps {
    ApplyAll(cfg, m, FentryOps(e))
  }

  // Two changes of different entries lead to the same maps only if there is no change at all.
  lemma DifferentLocks(m: Maps, a: Maps, b: Maps, own: TaskLock, found: TaskLock)
    requires own != found && a.stats == m.stats && b.stats == m.stats
    requires forall tl :: tl != own ==>
      (tl in a.holders <==> tl in m.holders) && (tl in m.holders ==> a.holders[tl] == m.holders[tl])
    requires forall tl :: tl != found ==>
      (tl in b.holders <==> tl in m.holders) && (tl in m.holders ==> b.holders[tl] == m.holders[tl])
    ensures a == b <==> a == m && b == m
  {
    if a == b {
      assert a.holders == m.holders;
    }
  }

  // For every run of any threads, from any state, with no condition on how they nest: the kprobe
  // family and the fentry family have the same maps in every state if and only if every exit finds
  // its own lock under its thread id, or concerns no lock of which there is anything to record.
  lemma {:induction false} RefinesExactly(cfg: Config, s: State, run: seq<Event>)
    ensures SameThroughout(cfg, s, s.maps, run) <==> ExitsAgree(cfg, s, run)
    decreases |run|
  {
    if run != [] {
      ExitAgreesExactly(cfg, s, run[0]);
      RefinesExactly(cfg, KprobeStep(cfg, s, run[0]), run[1..]);
    }
  }

  // Threads whose entries and exits alternate are a case of it.
  lemma {:induction false} AlternatingExitsAgree(cfg: Config, m: Maps, open: map<U32, Call>, run: seq<Event>)
    requires Alternates(open, run)
    ensures ExitsAgree(cfg, State(m, LocksOf(open)), run)
    decreases |run|
  {
    if run != [] {
      var e := run[0];
      assert KprobeStep(cfg, State(m, LocksOf(open)), e)
          == State(ApplyAll(cfg, m, FentryOps(e)), LocksOf(Inside(open, e)));
      AlternatingExitsAgree(cfg, ApplyAll(cfg, m, FentryOps(e)), Inside(open, e), run[1..]);
    }
  }

  lemma {:induction false} SameAtEnd(cfg: Config, s: State, m: Maps, run: seq<Event>)
    requires SameThroughout(cfg, s, m, run)
    ensures KprobeRun(cfg, s, run).maps == FentryRun(cfg, m, run)
    decreases |run|
  {
    if run != [] {
      SameAtEnd(cfg, KprobeStep(cfg, s, run[0]), ApplyAll(cfg, m, FentryOps(run[0])), run[1..]);
    }
  }

  // A run that breaks it: a thread that enters a second lock function inside the first loses the
  // first lock, and the two families disagree on when it was acquired.
  const NO_FILTER := Config(0, 0, 0, false)
  const NESTED_ENV := Env(7, 1, 1, "t")
  const NESTED_ENTRIES := [
    Enter(5, MutexLock, 100, NESTED_ENV), Enter(5, MutexTrylock, 200, NESTED_ENV),
    Exit(5, MutexTrylock, 200, 0, NESTED_ENV), Exit(5, MutexLock, 100, 0, NESTED_ENV)]

  lemma NestedEntriesBreakRefinement()
    ensures !Alternates(map[], NESTED_ENTRIES)
    ensures !ExitsAgree(NO_FILTER, State(EMPTY_MAPS, map[]), NESTED_ENTRIES)
    ensures KprobeRun(NO_FILTER, State(EMPTY_MAPS, map[]), NESTED_ENTRIES).maps
         != FentryRun(NO_FILTER, EMPTY_MAPS, NESTED_ENTRIES)
  {
    var cfg, env, run := NO_FILTER, NESTED_ENV, NESTED_ENTRIES;
    var outer, inner, innerOut, outerOut := run[0], run[1], run[2], run[3];
    var tl := TaskLock(5, 100);

    assert Tid(5) == 5 && Traced(cfg, tl);
    var m1 := Maps(map[tl := Holder(7, 5, 1, 0, 0, 100)], map[]);
    var m2 := Maps(map[tl := Holder(7, 5, 1, 1, 0, 100)], map[]);
    assert EnterOps(5, MutexLock, 100, env) == [Contend(tl, 7, 1)];
    assert ApplyAll(cfg, EMPTY_MAPS, [Contend(tl, 7, 1)]) == m1;
    assert ApplyAll(cfg, m1, [Acquire(tl, 1)]) == m2;

    var k1 := KprobeStep(cfg, State(EMPTY_MAPS, map[]), outer);
    assert k1 == State(m1, map[5 := 100]);
    var k2 := KprobeStep(cfg, k1, inner);
    assert k2 == State(m1, map[5 := 200]);
    var k3 := KprobeStep(cfg, k2, innerOut);
    assert k3 == State(m1, map[]);
    var k4 := KprobeStep(cfg, k3, outerOut);
    assert k4 == k3;
    assert [outerOut][1..] == [] && [innerOut, outerOut][1..] == [outerOut];
    assert [inner, innerOut, outerOut][1..] == [innerOut, outerOut];
    assert run[1..] == [inner, innerOut, outerOut];
    assert KprobeRun(cfg, k3, [outerOut]) == k4;
    assert KprobeRun(cfg, k2, [innerOut, outerOut]) == k4;
    assert KprobeRun(cfg, k1, [inner, innerOut, outerOut]) == k4;
    assert FentryRun(cfg, m1, [outerOut]) == m2;
    assert FentryRun(cfg, m1, [innerOut, outerOut]) == m2;
    assert FentryRun(cfg, m1, [inner, innerOut, outerOut]) == m2;
    assert m1.holders[tl] != m2.holders[tl];
    if ExitsAgree(cfg, State(EMPTY_MAPS, map[]), run) {
      RefinesExactly(cfg, State(EMPTY_MAPS, map[]), run);
      SameAtEnd(cfg, State(EMPTY_MAPS, map[]), EMPTY_MAPS, run);
    }
    assert !Alternates(map[], run);
  }

  // ---------------------------------------------------------------------------
  // What the statistics mean: a reference that only looks back over the operations
  // ---------------------------------------------------------------------------

  // The operation, among the first n, that started the session of tl still open after them.
  function OpenTry(cfg: Config, ops: seq<Op>, n: nat, tl: TaskLock): (j: Option<nat>)
    requires n <= |ops|
    ensures j.Some? ==> j.value < n && ops[j.value].Contend? && Stacked(ops[j.value].stackId)
                        && ops[j.value].tl == tl && Traced(cfg, tl)
  {
    if n == 0 then None
    else if ops[n - 1].tl != tl || !Traced(cfg, tl) then OpenTry(cfg, ops, n - 1, tl)
    else match ops[n - 1]
      case Contend(_, stackId, _) => if Stacked(stackId) then Some(n - 1) else OpenTry(cfg, ops, n - 1, tl)
      case Acquire(_, _) => OpenTry(cfg, ops, n - 1, tl)
      case Abort(_) => None
      case Release(_, _, _) => None
  }

  // When the open session of tl was last told it had the lock; 0 when it was not.
  function AcquiredAt(cfg: Config, ops: seq<Op>, n: nat, tl: TaskLock): U64
    requires n <= |ops|
  {
    if n == 0 then 0
    else if ops[n - 1].tl != tl then AcquiredAt(cfg, ops, n - 1, tl)
    else match ops[n - 1]
      case Contend(_, stackId, _) => if Stacked(stackId) then 0 else AcquiredAt(cfg, ops, n - 1, tl)
      case Acquire(_, now) => now
      case Abort(_) => 0
      case Release(_, _, _) => 0
  }

  function OpenHolder(cfg: Config, ops: seq<Op>, n: nat, tl: TaskLock): Holder
    requires n <= |ops| && OpenTry(cfg, ops, n, tl).Some?
  {
    var contend := ops[OpenTry(cfg, ops, n, tl).value];
    Holder(contend.stackId, tl.taskId, contend.now, AcquiredAt(cfg, ops, n, tl), 0, tl.lockPtr)
  }

  datatype Entry = Entry(h: Holder, comm: string)

  // The finished sessions among the first n operations, in the order of their releases.
  function Ledger(cfg: Config, ops: seq<Op>, n: nat): seq<Entry>
    requires n <= |ops|
  {
    if n == 0 then []
    else
      var before := Ledger(cfg, ops, n - 1);
      var op := ops[n - 1];
      if op.Release? && OpenTry(cfg, ops, n - 1, op.tl).Some?
      then before + [Entry(OpenHolder(cfg, ops, n - 1, op.tl).(relAt := op.now), op.comm)]
      else before
  }

  // The task id of a thread, made of the ids of its process and its own.
  function TaskId(tgid: U32, pid: U32): U64 {
    tgid * TWO32 + pid
  }

  ghost predicate OfThread(taskId: U64, pid: U32) {
    exists tgid: U32 :: taskId == TaskId(tgid, pid)
  }

  // A session belongs to a thread, when there is a table per thread, and otherwise to the stack that
  // it started with.
  ghost predicate BelongsTo(cfg: Config, h: Holder, key: U32) {
    if cfg.perThread then OfThread(h.taskId, key) else h.stackId == key
  }

  lemma TaskIdSplits(tgid: U32, pid: U32)
    ensures TaskId(tgid, pid) / TWO32 == tgid && TaskId(tgid, pid) % TWO32 == pid
  {
  }

  lemma OfThreadExactly(taskId: U64, pid: U32)
    ensures OfThread(taskId, pid) <==> taskId % TWO32 == pid
  {
    if tgid: U32 :| taskId == TaskId(tgid, pid) {
      TaskIdSplits(tgid, pid);
    }
    if taskId % TWO32 == pid {
      var tgid: U32 := taskId / TWO32;
      assert taskId == TaskId(tgid, pid);
    }
  }

  lemma BelongsExactly(cfg: Config, h: Holder, key: U32)
    ensures BelongsTo(cfg, h, key) <==> Key(cfg, h) == key
  {
    OfThreadExactly(h.taskId, key);
  }

  // The filters are those of user space: on the lock, on the process and on the thread.
  lemma TracedExactly(cfg: Config, tgid: U32, pid: U32, lock: U64)
    ensures Traced(cfg, TaskLock(TaskId(tgid, pid), lock)) <==>
      cfg.targLock in {0, lock} && cfg.targTgid in {0, tgid} && cfg.targPid in {0, pid}
  {
    TaskIdSplits(tgid, pid);
  }

  // The kprobe programs keep one lock for every thread: its events alone change it.
  lemma LocksByThread(cfg: Config, s: State, e: Event, pid: U32)
    requires !Unlocks(e.fn)
    ensures var r := KprobeStep(cfg, s, e);
      if !OfThread(e.task, pid) then
        (pid in r.locks <==> pid in s.locks) && (pid in s.locks ==> r.locks[pid] == s.locks[pid])
      else if e.Enter? then pid in r.locks && r.locks[pid] == e.lock
      else pid !in r.locks
  {
    OfThreadExactly(e.task, pid);
  }

  // The entries of a ledger that belong to a key.
  ghost function Under(cfg: Config, ledger: seq<Entry>, key: U32): seq<Entry> {
    if ledger == [] then []
    else
      var last := ledger[|ledger| - 1];
      Under(cfg, ledger[..|ledger| - 1], key) + (if BelongsTo(cfg, last.h, key) then [last] else [])
  }

  datatype Sample = Sample(delta: U64, taskId: U64, lockPtr: U64, comm: string)

  function Wait(e: Entry): Sample {
    Sample(Wrap64(e.h.acqAt - e.h.tryAt), e.h.taskId, e.h.lockPtr, e.comm)
  }

  function Hold(e: Entry): Sample {
    Sample(Wrap64(e.h.relAt - e.h.acqAt), e.h.taskId, e.h.lockPtr, e.comm)
  }

  function Waits(es: seq<Entry>): seq<Sample> {
    seq(|es|, i requires 0 <= i < |es| => Wait(es[i]))
  }

  function Holds(es: seq<Entry>): seq<Sample> {
    seq(|es|, i requires 0 <= i < |es| => Hold(es[i]))
  }

  function Sum(ss: seq<Sample>): nat {
    if ss == [] then 0 else Sum(ss[..|ss| - 1]) + ss[|ss| - 1].delta
  }

  // h names the first sample that attains its maximum.
  ghost predicate FirstMax(h: Half, ss: seq<Sample>, i: nat, named: bool) {
    && i < |ss|
    && ss[i].delta == h.max && ss[i].taskId == h.maxId && ss[i].lockPtr == h.maxLock
    && (named ==> ss[i].comm == h.maxComm)
    && forall j :: 0 <= j < i ==> ss[j].delta < h.max
  }

  // The half counts the samples, sums them, and holds their true maximum with its first owner.
  ghost predicate Summarises(h: Half, ss: seq<Sample>, named: bool) {
    Adds(h, ss) && TrueMax(h, ss, named)
  }

  predicate Adds(h: Half, ss: seq<Sample>) {
    h.count == Wrap64(|ss|) && h.total == Wrap64(Sum(ss))
  }

  ghost predicate TrueMax(h: Half, ss: seq<Sample>, named: bool) {
    && (forall i :: 0 <= i < |ss| ==> ss[i].delta <= h.max)
    && (h.max == 0 ==> h.maxId == 0 && h.maxLock == 0 && (named ==> h.maxComm == ""))
    && (h.max > 0 ==> exists i :: FirstMax(h, ss, i, named))
  }

  ghost predicate StatOf(cfg: Config, ls: LockStat, es: seq<Entry>) {
    && Summarises(ls.acq, Waits(es), !cfg.perThread)
    && Summarises(ls.hld, Holds(es), !cfg.perThread)
    && NamedOnce(cfg, ls, es)
  }

  // A per-thread table has one owner, named once.
  predicate NamedOnce(cfg: Config, ls: LockStat, es: seq<Entry>) {
    cfg.perThread && es != [] ==> ls.acq.maxComm == es[0].comm && ls.hld.maxComm == ""
  }

  lemma AccountNamesOnce(cfg: Config, ls: LockStat, es: seq<Entry>, e: Entry)
    requires NamedOnce(cfg, ls, es)
    requires es == [] && cfg.perThread ==> ls.acq.maxComm == e.comm && ls.hld.maxComm == ""
    ensures NamedOnce(cfg, AccountInto(cfg, ls, e.h, e.comm), es + [e])
  {
  }

  lemma BumpSummarises(h: Half, ss: seq<Sample>, s: Sample, named: bool)
    requires Summarises(h, ss, named)
    ensures Summarises(Bump(h, s.delta, s.taskId, s.lockPtr, s.comm, named), ss + [s], named)
  {
    BumpAdds(h, ss, s, named);
    BumpMax(h, ss, s, named);
  }

  lemma BumpAdds(h: Half, ss: seq<Sample>, s: Sample, named: bool)
    requires Adds(h, ss)
    ensures Adds(Bump(h, s.delta, s.taskId, s.lockPtr, s.comm, named), ss + [s])
  {
    assert (ss + [s])[..|ss + [s]| - 1] == ss;
    WrapAdd(|ss|, 1);
    WrapAdd(Sum(ss), s.delta);
  }

  lemma BumpMax(h: Half, ss: seq<Sample>, s: Sample, named: bool)
    requires TrueMax(h, ss, named)
    ensures TrueMax(Bump(h, s.delta, s.taskId, s.lockPtr, s.comm, named), ss + [s], named)
  {
    var h' := Bump(h, s.delta, s.taskId, s.lockPtr, s.comm, named);
    if s.delta > h.max {
      NewFirstMax(h, h', ss, s, named);
    } else if h.max > 0 {
      OldFirstMax(h, h', ss, s, named);
    }
  }

  lemma NewFirstMax(h: Half, h': Half, ss: seq<Sample>, s: Sample, named: bool)
    requires forall i :: 0 <= i < |ss| ==> ss[i].delta <= h.max
    requires h'.max == s.delta > h.max && h'.maxId == s.taskId && h'.maxLock == s.lockPtr
    requires named ==> h'.maxComm == s.comm
    ensures exists i :: FirstMax(h', ss + [s], i, named)
  {
    assert FirstMax(h', ss + [s], |ss|, named);
  }

  lemma OldFirstMax(h: Half, h': Half, ss: seq<Sample>, s: Sample, named: bool)
    requires exists i :: FirstMax(h, ss, i, named)
    requires h'.max == h.max && h'.maxId == h.maxId && h'.maxLock == h.maxLock && h'.maxComm == h.maxComm
    ensures exists i :: FirstMax(h', ss + [s], i, named)
  {
    var i :| FirstMax(h, ss, i, named);
    assert FirstMax(h', ss + [s], i, named);
  }

  lemma SamplesAppend(es: seq<Entry>, e: Entry)
    ensures Waits(es + [e]) == Waits(es) + [Wait(e)]
    ensures Holds(es + [e]) == Holds(es) + [Hold(e)]
  {
  }

  lemma {:induction false} AccountStatOf(cfg: Config, ls: LockStat, es: seq<Entry>, e: Entry)
    requires StatOf(cfg, ls, es)
    requires es == [] && cfg.perThread ==> ls.acq.maxComm == e.comm && ls.hld.maxComm == ""
    ensures StatOf(cfg, AccountInto(cfg, ls, e.h, e.comm), es + [e])
  {
    AccountNamesOnce(cfg, ls, es, e);
    SamplesAppend(es, e);
    AccountSummarises(cfg, ls, e, Waits(es), Holds(es));
  }

  lemma AccountSummarises(cfg: Config, ls: LockStat, e: Entry, waits: seq<Sample>, holds: seq<Sample>)
    requires Summarises(ls.acq, waits, !cfg.perThread) && Summarises(ls.hld, holds, !cfg.perThread)
    ensures var r := AccountInto(cfg, ls, e.h, e.comm);
      && Summarises(r.acq, waits + [Wait(e)], !cfg.perThread)
      && Summarises(r.hld, holds + [Hold(e)], !cfg.perThread)
  {
    BumpSummarises(ls.acq, waits, Wait(e), !cfg.perThread);
    BumpSummarises(ls.hld, holds, Hold(e), !cfg.perThread);
  }

  lemma {:induction false} HoldersAreOpenSessions(cfg: Config, ops: seq<Op>, n: nat, tl: TaskLock)
    requires n <= |ops|
    ensures tl in ApplyAll(cfg, EMPTY_MAPS, ops[..n]).holders <==> OpenTry(cfg, ops, n, tl).Some?
    ensures OpenTry(cfg, ops, n, tl).Some? ==>
      ApplyAll(cfg, EMPTY_MAPS, ops[..n]).holders[tl] == OpenHolder(cfg, ops, n, tl)
  {
    if n > 0 {
      HoldersAreOpenSessions(cfg, ops, n - 1, tl);
      OneMore(cfg, ops, n);
    }
  }

  lemma OneMore(cfg: Config, ops: seq<Op>, n: nat)
    requires 0 < n <= |ops|
    ensures ApplyAll(cfg, EMPTY_MAPS, ops[..n])
         == Apply(cfg, ApplyAll(cfg, EMPTY_MAPS, ops[..n - 1]), ops[n - 1])
  {
    assert ops[..n] == ops[..n - 1] + [ops[n - 1]];
    ApplyAllAppend(cfg, EMPTY_MAPS, ops[..n - 1], [ops[n - 1]]);
    assert [ops[n - 1]][1..] == [];
  }

  // A thread, or a stack, has statistics exactly when a finished session belongs to it, and they
  // summarise the waiting and holding times of those sessions.
  ghost predicate KeyStat(cfg: Config, stats: map<U32, LockStat>, ledger: seq<Entry>, key: U32) {
    StatsOf(cfg, stats, Under(cfg, ledger, key), key)
  }

  ghost predicate StatsOf(cfg: Config, stats: map<U32, LockStat>, es: seq<Entry>, key: U32) {
    && (key in stats <==> es != [])
    && (key in stats ==> StatOf(cfg, stats[key], es))
  }

  lemma AccountedStatsOf(cfg: Config, stats: map<U32, LockStat>, es: seq<Entry>, e: Entry, key: U32)
    requires StatsOf(cfg, stats, es, key)
    ensures StatsOf(cfg, Accounted(cfg, stats, e.h, e.comm), if Key(cfg, e.h) == key then es + [e] else es, key)
  {
    if Key(cfg, e.h) == key {
      var ls := if key in stats then stats[key] else Fresh(cfg, e.comm);
      assert StatOf(cfg, ls, es);
      AccountStatOf(cfg, ls, es, e);
    }
  }

  lemma AccountedKeyStat(cfg: Config, stats: map<U32, LockStat>, ledger: seq<Entry>, e: Entry, key: U32)
    requires KeyStat(cfg, stats, ledger, key)
    ensures KeyStat(cfg, Accounted(cfg, stats, e.h, e.comm), ledger + [e], key)
  {
    AccountedStatsOf(cfg, stats, Under(cfg, ledger, key), e, key);
    BelongsExactly(cfg, e.h, key);
    UnderSnoc(cfg, ledger, e, key);
    assert Under(cfg, ledger, key) + [] == Under(cfg, ledger, key);
  }

  lemma UnderSnoc(cfg: Config, ledger: seq<Entry>, e: Entry, key: U32)
    ensures Under(cfg, ledger + [e], key) == Under(cfg, ledger, key) + if BelongsTo(cfg, e.h, key) then [e] else []
  {
    assert (ledger + [e])[..|ledger + [e]| - 1] == ledger;
  }

  // After any operations by any tasks, a thread (with per_thread) or a stack (without) has statistics
  // exactly when some finished session is that of the thread, or started with the stack, and they
  // are the count, sum, true maximum and first owner of the maximum of those sessions' waiting and
  // holding times.
  lemma {:induction false} StatsSummariseSessions(cfg: Config, ops: seq<Op>, n: nat, key: U32)
    requires n <= |ops|
    ensures KeyStat(cfg, ApplyAll(cfg, EMPTY_MAPS, ops[..n]).stats, Ledger(cfg, ops, n), key)
  {
    if n > 0 {
      StatsSummariseSessions(cfg, ops, n - 1, key);
      OneMore(cfg, ops, n);
      var op := ops[n - 1];
      HoldersAreOpenSessions(cfg, ops, n - 1, op.tl);
      if op.Release? && OpenTry(cfg, ops, n - 1, op.tl).Some? {
        var e := Entry(OpenHolder(cfg, ops, n - 1, op.tl).(relAt := op.now), op.comm);
        AccountedKeyStat(cfg, ApplyAll(cfg, EMPTY_MAPS, ops[..n - 1]).stats, Ledger(cfg, ops, n - 1), e, key);
      }
    }
  }

  // ---------------------------------------------------------------------------
  // One use of a lock
  // ---------------------------------------------------------------------------

  // Did the lock function get the lock? Most do unless they return an error; mutex_trylock returns
  // nonzero and the other two 1.
  predicate GotIt(fn: Fn, ret: int) {
    match fn
    case MutexLock | DownRead | DownWrite => true
    case MutexTrylock => ret != 0
    case DownReadTrylock | DownWriteTrylock => ret == 1
    case MutexLockInterruptible | MutexLockKillable
       | DownReadInterruptible | DownReadKillable | DownWriteKillable => ret == 0
    case MutexUnlock | UpRead | UpWrite => false
  }

  // A session of a function that waits starts at its entry and is acquired at its exit; one of a
  // trylock starts and is acquired at the exit.
  function SessionOf(task: U64, fn: Fn, lock: U64, entry: Env, exit: Env, released: U64): Option<Holder> {
    var (env, acqAt) := match fn
      case MutexTrylock | DownReadTrylock | DownWriteTrylock => (exit, exit.later)
      case _ => (entry, exit.now);
    if 0 <= env.stackId < TWO31 then Some(Holder(env.stackId, task, env.now, acqAt, released, lock)) else None
  }

  lemma InsideWait(cfg: Config, m: Maps, tl: TaskLock, fn: Fn, ret: int, entry: Env, exit: Env)
    requires Traced(cfg, tl) && tl !in m.holders && fn !in {MutexUnlock, UpRead, UpWrite}
    requires fn !in {MutexTrylock, DownReadTrylock, DownWriteTrylock}
    ensures var started := Holder(if entry.stackId < 0 || entry.stackId >= TWO31 then 0 else entry.stackId,
                                  tl.taskId, entry.now, 0, 0, tl.lockPtr);
      var m1 := ApplyAll(cfg, m, EnterOps(tl.taskId, fn, tl.lockPtr, entry));
      && m1 == (if 0 <= entry.stackId < TWO31 then m.(holders := m.holders[tl := started]) else m)
      && ApplyAll(cfg, m1, ExitOps(tl.taskId, fn, tl.lockPtr, ret, exit))
      == if GotIt(fn, ret) && 0 <= entry.stackId < TWO31
         then m.(holders := m.holders[tl := started.(acqAt := exit.now)]) else m
  {
    EventShort(cfg, m, tl.taskId, fn, tl.lockPtr, 0, entry);
    var m1 := ApplyAll(cfg, m, EnterOps(tl.taskId, fn, tl.lockPtr, entry));
    EventShort(cfg, m1, tl.taskId, fn, tl.lockPtr, ret, exit);
    assert m1.holders - {tl} == m.holders;
  }

  lemma InsideTry(cfg: Config, m: Maps, tl: TaskLock, fn: Fn, ret: int, entry: Env, exit: Env)
    requires Traced(cfg, tl) && tl !in m.holders && fn in {MutexTrylock, DownReadTrylock, DownWriteTrylock}
    ensures var session := SessionOf(tl.taskId, fn, tl.lockPtr, entry, exit, 0);
      ApplyAll(cfg, ApplyAll(cfg, m, EnterOps(tl.taskId, fn, tl.lockPtr, entry)),
               ExitOps(tl.taskId, fn, tl.lockPtr, ret, exit))
      == if GotIt(fn, ret) && session.Some? then m.(holders := m.holders[tl := session.value]) else m
  {
    EventShort(cfg, m, tl.taskId, fn, tl.lockPtr, 0, entry);
    EventShort(cfg, m, tl.taskId, fn, tl.lockPtr, ret, exit);
  }

  // What a traced use of a lock leaves open.
  lemma InsideUse(cfg: Config, m: Maps, tl: TaskLock, fn: Fn, ret: int, entry: Env, exit: Env)
    requires Traced(cfg, tl) && tl !in m.holders && fn !in {MutexUnlock, UpRead, UpWrite}
    ensures var session := SessionOf(tl.taskId, fn, tl.lockPtr, entry, exit, 0);
      ApplyAll(cfg, ApplyAll(cfg, m, EnterOps(tl.taskId, fn, tl.lockPtr, entry)),
               ExitOps(tl.taskId, fn, tl.lockPtr, ret, exit))
      == if GotIt(fn, ret) && session.Some? then m.(holders := m.holders[tl := session.value]) else m
  {
    if fn in {MutexTrylock, DownReadTrylock, DownWriteTrylock} {
      InsideTry(cfg, m, tl, fn, ret, entry, exit);
    } else {
      InsideWait(cfg, m, tl, fn, ret, entry, exit);
    }
  }

  // A traced use of any lock by any function, from any state without a session of it: it is accounted
  // with its own times when the lock was got and the stack id was no error, and leaves nothing
  // behind when it was not got.
  lemma UseIsAccounted(cfg: Config, m: Maps, tl: TaskLock, fn: Fn, ret: int, unlock: Fn,
                       entry: Env, exit: Env, last: Env)
    requires Traced(cfg, tl) && tl !in m.holders
    requires fn !in {MutexUnlock, UpRead, UpWrite} && unlock in {MutexUnlock, UpRead, UpWrite}
    ensures var inside := ApplyAll(cfg, ApplyAll(cfg, m, FentryOps(Enter(tl.taskId, fn, tl.lockPtr, entry))),
                                   FentryOps(Exit(tl.taskId, fn, tl.lockPtr, ret, exit)));
      var r := ApplyAll(cfg, inside, FentryOps(Enter(tl.taskId, unlock, tl.lockPtr, last)));
      var session := SessionOf(tl.taskId, fn, tl.lockPtr, entry, exit, last.now);
      && (!GotIt(fn, ret) ==> inside == m)
      && r == if GotIt(fn, ret) && session.Some? then Maps(m.holders, Accounted(cfg, m.stats, session.value, last.comm))
              else m
  {
    InsideUse(cfg, m, tl, fn, ret, entry, exit);
    var session := SessionOf(tl.taskId, fn, tl.lockPtr, entry, exit, 0);
    var inside := if GotIt(fn, ret) && session.Some? then m.(holders := m.holders[tl := session.value]) else m;
    EventShort(cfg, inside, tl.taskId, unlock, tl.lockPtr, 0, last);
    assert inside.holders - {tl} == m.holders;
  }

  function FentryTrace(run: seq<Event>): seq<Op> {
    if run == [] then [] else FentryOps(run[0]) + FentryTrace(run[1..])
  }

  lemma {:induction false} FentryRunApplies(cfg: Config, m: Maps, run: seq<Event>)
    ensures FentryRun(cfg, m, run) == ApplyAll(cfg, m, FentryTrace(run))
    decreases |run|
  {
    if run != [] {
      ApplyAllAppend(cfg, m, FentryOps(run[0]), FentryTrace(run[1..]));
      FentryRunApplies(cfg, ApplyAll(cfg, m, FentryOps(run[0])), run[1..]);
    }
  }

  // End to end: what the kprobe family reports for a key after any interleaving in which every
  // thread alternates is the summary of the lock sessions that the threads went through.
  lemma KprobeStatsSummariseSessions(cfg: Config, run: seq<Event>, key: U32)
    requires Alternates(map[], run)
    ensures var ops := FentryTrace(run);
            KeyStat(cfg, KprobeRun(cfg, State(EMPTY_MAPS, map[]), run).maps.stats,
                    Ledger(cfg, ops, |ops|), key)
  {
    KprobeRefinesFentry(cfg, run);
    FentryRunApplies(cfg, EMPTY_MAPS, run);
    var ops := FentryTrace(run);
    assert ops[..|ops|] == ops;
    StatsSummariseSessions(cfg, ops, |ops|, key);
  }
}
