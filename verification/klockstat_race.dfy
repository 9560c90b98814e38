// Concurrent calls of account on one lock_stat that already exists. Every atomic add, every
// READ_ONCE and every WRITE_ONCE is a step of its own, and any schedule of them may happen.
module KlockstatRace {
  import opened Machine
  import opened Klockstat

  // A call of account and how far it has come: seven positions for the acq_* fields, then the
  // same seven for the hld_* fields, then 14 when it has returned.
  datatype AccountCall = AccountCall(pc: nat, acqDelta: U64, hldDelta: U64, taskId: U64, lockPtr: U64, comm: string)

  const ADD_COUNT := 0
  const ADD_TOTAL := 1
  const READ_MAX := 2
  const WRITE_MAX := 3
  const WRITE_ID := 4
  const WRITE_LOCK := 5
  const WRITE_COMM := 6
  const PAST := 7

  datatype Shared = Shared(stat: LockStat, calls: seq<AccountCall>)

  // ---------------------------------------------------------------------------
  // One half of the statistics and the workers on it
  // ---------------------------------------------------------------------------

  datatype Worker = Worker(k: nat, delta: U64, taskId: U64, lockPtr: U64, comm: string)

  function HalfStep(h: Half, w: Worker): Half {
    match w.k
    case 0 => h.(count := Wrap64(h.count + 1))
    case 1 => h.(total := Wrap64(h.total + w.delta))
    case 3 => h.(max := w.delta)
    case 4 => h.(maxId := w.taskId)
    case 5 => h.(maxLock := w.lockPtr)
    case 6 => h.(maxComm := w.comm)
    case _ => h
  }

  function NextK(named: bool, h: Half, w: Worker): nat {
    if w.k == READ_MAX then (if w.delta > h.max then WRITE_MAX else PAST)
    else if w.k == WRITE_LOCK then (if named then WRITE_COMM else PAST)
    else if w.k >= PAST then w.k
    else w.k + 1
  }

  function AcqWorker(c: AccountCall): Worker {
    Worker(if c.pc < PAST then c.pc else PAST, c.acqDelta, c.taskId, c.lockPtr, c.comm)
  }

  function HldWorker(c: AccountCall): Worker {
    Worker(if c.pc < PAST then 0 else c.pc - PAST, c.hldDelta, c.taskId, c.lockPtr, c.comm)
  }

  function AcqWorkers(calls: seq<AccountCall>): (ws: seq<Worker>)
    ensures |ws| == |calls| && forall i :: 0 <= i < |ws| ==> ws[i] == AcqWorker(calls[i])
  {
    seq(|calls|, i requires 0 <= i < |calls| => AcqWorker(calls[i]))
  }

  function HldWorkers(calls: seq<AccountCall>): (ws: seq<Worker>)
    ensures |ws| == |calls| && forall i :: 0 <= i < |ws| ==> ws[i] == HldWorker(calls[i])
  {
    seq(|calls|, i requires 0 <= i < |calls| => HldWorker(calls[i]))
  }

  // Call i takes its next step; a call that has returned, or does not exist, does nothing.
  function Step(named: bool, s: Shared, i: nat): Shared {
    if i >= |s.calls| || s.calls[i].pc >= 2 * PAST then s
    else
      var c := s.calls[i];
      if c.pc < PAST then
        var w := AcqWorker(c);
        Shared(s.stat.(acq := HalfStep(s.stat.acq, w)),
               s.calls[i := c.(pc := NextK(named, s.stat.acq, w))])
      else
        var w := HldWorker(c);
        Shared(s.stat.(hld := HalfStep(s.stat.hld, w)),
               s.calls[i := c.(pc := PAST + NextK(named, s.stat.hld, w))])
  }

  function Run(named: bool, s: Shared, schedule: seq<nat>): Shared
    decreases |schedule|
  {
    if schedule == [] then s else Run(named, Step(named, s, schedule[0]), schedule[1..])
  }

  // A single call that nobody disturbs runs to its end.
  function RunAlone(named: bool, ls: LockStat, c: AccountCall): LockStat
    decreases 2 * PAST - c.pc
  {
    if c.pc >= 2 * PAST then ls
    else
      var s := Step(named, Shared(ls, [c]), 0);
      RunAlone(named, s.stat, s.calls[0])
  }

  lemma AloneStep(named: bool, s: Shared)
    requires |s.calls| == 1 && s.calls[0].pc < 2 * PAST
    ensures var s' := Step(named, s, 0);
      |s'.calls| == 1 && RunAlone(named, s.stat, s.calls[0]) == RunAlone(named, s'.stat, s'.calls[0])
  {
    assert s == Shared(s.stat, [s.calls[0]]);
  }

  // The two additions of a half.
  function Added(h: Half, delta: U64): Half {
    h.(count := Wrap64(h.count + 1), total := Wrap64(h.total + delta))
  }

  lemma AcqAddsAlone(named: bool, ls: LockStat, c: AccountCall)
    requires c.pc == 0
    ensures RunAlone(named, ls, c) == RunAlone(named, ls.(acq := Added(ls.acq, c.acqDelta)), c.(pc := READ_MAX))
  {
    var s0 := Shared(ls, [c]);
    AloneStep(named, s0);
    AloneStep(named, Step(named, s0, 0));
  }

  lemma AcqHalfAlone(named: bool, ls: LockStat, c: AccountCall)
    requires c.pc == 0
    ensures RunAlone(named, ls, c) ==
      RunAlone(named, ls.(acq := Bump(ls.acq, c.acqDelta, c.taskId, c.lockPtr, c.comm, named)), c.(pc := PAST))
  {
    AcqAddsAlone(named, ls, c);
    var added := ls.(acq := Added(ls.acq, c.acqDelta));
    AloneStep(named, Shared(added, [c.(pc := READ_MAX)]));
    if c.acqDelta > ls.acq.max {
      AcqWritesAlone(named, added, c.(pc := WRITE_MAX));
    }
  }

  lemma AcqWritesAlone(named: bool, ls: LockStat, c: AccountCall)
    requires c.pc == WRITE_MAX
    ensures var acq := ls.acq.(max := c.acqDelta, maxId := c.taskId, maxLock := c.lockPtr,
                               maxComm := if named then c.comm else ls.acq.maxComm);
      RunAlone(named, ls, c) == RunAlone(named, ls.(acq := acq), c.(pc := PAST))
  {
    var s3 := Shared(ls, [c]);
    var s4 := Step(named, s3, 0);
    var s5 := Step(named, s4, 0);
    AloneStep(named, s3);
    AloneStep(named, s4);
    AloneStep(named, s5);
    if named {
      AloneStep(named, Step(named, s5, 0));
    }
  }

  lemma HldAddsAlone(named: bool, ls: LockStat, c: AccountCall)
    requires c.pc == PAST
    ensures RunAlone(named, ls, c)
         == RunAlone(named, ls.(hld := Added(ls.hld, c.hldDelta)), c.(pc := PAST + READ_MAX))
  {
    var s0 := Shared(ls, [c]);
    AloneStep(named, s0);
    AloneStep(named, Step(named, s0, 0));
  }

  lemma HldHalfAlone(named: bool, ls: LockStat, c: AccountCall)
    requires c.pc == PAST
    ensures RunAlone(named, ls, c) ==
      ls.(hld := Bump(ls.hld, c.hldDelta, c.taskId, c.lockPtr, c.comm, named))
  {
    HldAddsAlone(named, ls, c);
    var added := ls.(hld := Added(ls.hld, c.hldDelta));
    AloneStep(named, Shared(added, [c.(pc := PAST + READ_MAX)]));
    if c.hldDelta > ls.hld.max {
      HldWritesAlone(named, added, c.(pc := PAST + WRITE_MAX));
    }
  }

  lemma HldWritesAlone(named: bool, ls: LockStat, c: AccountCall)
    requires c.pc == PAST + WRITE_MAX
    ensures RunAlone(named, ls, c) ==
      ls.(hld := ls.hld.(max := c.hldDelta, maxId := c.taskId, maxLock := c.lockPtr,
                         maxComm := if named then c.comm else ls.hld.maxComm))
  {
    var s3 := Shared(ls, [c]);
    var s4 := Step(named, s3, 0);
    var s5 := Step(named, s4, 0);
    AloneStep(named, s3);
    AloneStep(named, s4);
    AloneStep(named, s5);
    if named {
      AloneStep(named, Step(named, s5, 0));
    }
  }

  function CallFor(h: Holder, comm: string): AccountCall {
    AccountCall(0, Wrap64(h.acqAt - h.tryAt), Wrap64(h.relAt - h.acqAt), h.taskId, h.lockPtr, comm)
  }

  // Undisturbed, the atomic steps add up to what account does in the serial model.
  lemma AloneIsAccount(cfg: Config, ls: LockStat, h: Holder, comm: string)
    ensures RunAlone(!cfg.perThread, ls, CallFor(h, comm)) == AccountInto(cfg, ls, h, comm)
  {
    var c := CallFor(h, comm);
    AcqHalfAlone(!cfg.perThread, ls, c);
    var acq := Bump(ls.acq, c.acqDelta, c.taskId, c.lockPtr, comm, !cfg.perThread);
    HldHalfAlone(!cfg.perThread, ls.(acq := acq), c.(pc := PAST));
  }

  // ---------------------------------------------------------------------------
  // Counting workers
  // ---------------------------------------------------------------------------

  // How many workers have got beyond position t, and the sum of their deltas.
  function Beyond(ws: seq<Worker>, t: nat): (n: nat)
    ensures n <= |ws|
  {
    if ws == [] then 0
    else Beyond(ws[..|ws| - 1], t) + (if ws[|ws| - 1].k > t then 1 else 0)
  }

  function SumBeyond(ws: seq<Worker>, t: nat): nat {
    if ws == [] then 0
    else SumBeyond(ws[..|ws| - 1], t) + (if ws[|ws| - 1].k > t then ws[|ws| - 1].delta else 0)
  }

  lemma {:induction false} BeyondAfterMove(ws: seq<Worker>, i: nat, k: nat, t: nat)
    requires i < |ws| && ws[i].k <= k
    ensures var moved := ws[i := ws[i].(k := k)];
      && Beyond(moved, t) == Beyond(ws, t) + (if ws[i].k <= t < k then 1 else 0)
      && SumBeyond(moved, t) == SumBeyond(ws, t) + (if ws[i].k <= t < k then ws[i].delta else 0)
  {
    var n := |ws| - 1;
    var moved := ws[i := ws[i].(k := k)];
    if i == n {
      assert moved[..n] == ws[..n];
    } else {
      assert moved[..n] == ws[..n][i := ws[i].(k := k)];
      BeyondAfterMove(ws[..n], i, k, t);
    }
  }

  lemma {:induction false} NoneBeyond(ws: seq<Worker>, t: nat)
    requires forall i :: 0 <= i < |ws| ==> ws[i].k <= t
    ensures Beyond(ws, t) == 0 && SumBeyond(ws, t) == 0
  {
    if ws != [] {
      NoneBeyond(ws[..|ws| - 1], t);
    }
  }

  lemma {:induction false} SumBeyondAtLeast(ws: seq<Worker>, i: nat, t: nat)
    requires i < |ws| && ws[i].k > t
    ensures ws[i].delta <= SumBeyond(ws, t)
  {
    var n := |ws| - 1;
    if i < n {
      SumBeyondAtLeast(ws[..n], i, t);
    }
  }

  // ---------------------------------------------------------------------------
  // What every interleaving keeps
  // ---------------------------------------------------------------------------

  predicate Raising(w: Worker) {
    WRITE_MAX <= w.k < PAST
  }

  ghost predicate SumsInv(base: Half, h: Half, ws: seq<Worker>) {
    && h.count == Wrap64(base.count + Beyond(ws, ADD_COUNT))
    && h.total == Wrap64(base.total + SumBeyond(ws, ADD_TOTAL))
  }

  ghost predicate BoundInv(base: Half, h: Half, ws: seq<Worker>) {
    && h.max >= base.max
    && (h.max == base.max || exists i :: 0 <= i < |ws| && ws[i].k > WRITE_MAX && ws[i].delta == h.max)
    && (forall i :: 0 <= i < |ws| && Raising(ws[i]) ==> ws[i].delta > base.max)
    && (forall i :: 0 <= i < |ws| ==> ws[i].k <= PAST)
  }

  // From the half `base`, with the workers where they are now.
  ghost predicate HalfInv(base: Half, h: Half, ws: seq<Worker>) {
    SumsInv(base, h, ws) && BoundInv(base, h, ws)
  }

  lemma SumsInvStep(named: bool, base: Half, h: Half, ws: seq<Worker>, i: nat)
    requires SumsInv(base, h, ws) && i < |ws| && ws[i].k < PAST
    ensures SumsInv(base, HalfStep(h, ws[i]), ws[i := ws[i].(k := NextK(named, h, ws[i]))])
  {
    CountStep(base, h, ws, i, NextK(named, h, ws[i]));
    TotalStep(base, h, ws, i, NextK(named, h, ws[i]));
  }

  lemma CountStep(base: Half, h: Half, ws: seq<Worker>, i: nat, k: nat)
    requires h.count == Wrap64(base.count + Beyond(ws, ADD_COUNT)) && i < |ws| && ws[i].k < k
    ensures HalfStep(h, ws[i]).count == Wrap64(base.count + Beyond(ws[i := ws[i].(k := k)], ADD_COUNT))
  {
    BeyondAfterMove(ws, i, k, ADD_COUNT);
    WrapAdd(base.count + Beyond(ws, ADD_COUNT), 1);
  }

  lemma TotalStep(base: Half, h: Half, ws: seq<Worker>, i: nat, k: nat)
    requires h.total == Wrap64(base.total + SumBeyond(ws, ADD_TOTAL)) && i < |ws| && ws[i].k < k
    requires ws[i].k < ADD_TOTAL ==> k <= ADD_TOTAL
    ensures HalfStep(h, ws[i]).total == Wrap64(base.total + SumBeyond(ws[i := ws[i].(k := k)], ADD_TOTAL))
  {
    BeyondAfterMove(ws, i, k, ADD_TOTAL);
    WrapAdd(base.total + SumBeyond(ws, ADD_TOTAL), ws[i].delta);
  }

  lemma BoundInvStep(named: bool, base: Half, h: Half, ws: seq<Worker>, i: nat)
    requires BoundInv(base, h, ws) && i < |ws| && ws[i].k < PAST
    ensures BoundInv(base, HalfStep(h, ws[i]), ws[i := ws[i].(k := NextK(named, h, ws[i]))])
  {
    var w := ws[i];
    var h', ws' := HalfStep(h, w), ws[i := w.(k := NextK(named, h, w))];
    if w.k == WRITE_MAX {
      assert ws'[i].k > WRITE_MAX && ws'[i].delta == h'.max;
    } else if h.max != base.max {
      var j :| 0 <= j < |ws| && ws[j].k > WRITE_MAX && ws[j].delta == h.max;
      assert ws'[j].k > WRITE_MAX && ws'[j].delta == h'.max;
    }
  }

  ghost predicate Inv(base: LockStat, s: Shared) {
    && HalfInv(base.acq, s.stat.acq, AcqWorkers(s.calls))
    && HalfInv(base.hld, s.stat.hld, HldWorkers(s.calls))
    && forall i :: 0 <= i < |s.calls| ==> s.calls[i].pc <= 2 * PAST
  }

  // A step moves one worker of one half and leaves the other half and its workers alone.
  lemma StepMovesOneWorker(named: bool, s: Shared, i: nat)
    requires i < |s.calls| && s.calls[i].pc < 2 * PAST
    ensures var s' := Step(named, s, i);
      var acqs, hlds := AcqWorkers(s.calls), HldWorkers(s.calls);
      if s.calls[i].pc < PAST then
        && s'.stat == s.stat.(acq := HalfStep(s.stat.acq, acqs[i]))
        && AcqWorkers(s'.calls) == acqs[i := acqs[i].(k := NextK(named, s.stat.acq, acqs[i]))]
        && HldWorkers(s'.calls) == hlds
      else
        && s'.stat == s.stat.(hld := HalfStep(s.stat.hld, hlds[i]))
        && AcqWorkers(s'.calls) == acqs
        && HldWorkers(s'.calls) == hlds[i := hlds[i].(k := NextK(named, s.stat.hld, hlds[i]))]
  {
  }

  lemma {:induction false} InvStep(named: bool, base: LockStat, s: Shared, i: nat)
    requires Inv(base, s)
    ensures Inv(base, Step(named, s, i))
  {
    if i < |s.calls| && s.calls[i].pc < 2 * PAST {
      StepMovesOneWorker(named, s, i);
      if s.calls[i].pc < PAST {
        SumsInvStep(named, base.acq, s.stat.acq, AcqWorkers(s.calls), i);
        BoundInvStep(named, base.acq, s.stat.acq, AcqWorkers(s.calls), i);
      } else {
        SumsInvStep(named, base.hld, s.stat.hld, HldWorkers(s.calls), i);
        BoundInvStep(named, base.hld, s.stat.hld, HldWorkers(s.calls), i);
      }
    }
  }

  lemma {:induction false} InvRun(named: bool, base: LockStat, s: Shared, schedule: seq<nat>)
    requires Inv(base, s)
    ensures Inv(base, Run(named, s, schedule))
    decreases |schedule|
  {
    if schedule != [] {
      InvStep(named, base, s, schedule[0]);
      InvRun(named, base, Step(named, s, schedule[0]), schedule[1..]);
    }
  }

  ghost predicate AllReturned(s: Shared) {
    forall i :: 0 <= i < |s.calls| ==> s.calls[i].pc == 2 * PAST
  }

  ghost predicate Start(s: Shared) {
    forall i :: 0 <= i < |s.calls| ==> s.calls[i].pc == 0
  }

  lemma InvStart(s: Shared)
    requires Start(s)
    ensures Inv(s.stat, s)
  {
    NoneBeyond(AcqWorkers(s.calls), 0);
    NoneBeyond(AcqWorkers(s.calls), 1);
    NoneBeyond(HldWorkers(s.calls), 0);
    NoneBeyond(HldWorkers(s.calls), 1);
  }

  function InFlight(calls: seq<AccountCall>): nat {
    if calls == [] then 0
    else
      var c := calls[|calls| - 1];
      InFlight(calls[..|calls| - 1]) + (if 0 < c.pc < 2 * PAST then 1 else 0)
  }

  lemma {:induction false} CountsBracket(calls: seq<AccountCall>)
    requires forall i :: 0 <= i < |calls| ==> calls[i].pc <= 2 * PAST
    ensures Beyond(HldWorkers(calls), ADD_COUNT) <= Beyond(AcqWorkers(calls), ADD_COUNT)
         <= Beyond(HldWorkers(calls), ADD_COUNT) + InFlight(calls)
  {
    if calls != [] {
      var n := |calls| - 1;
      assert AcqWorkers(calls)[..n] == AcqWorkers(calls[..n]);
      assert HldWorkers(calls)[..n] == HldWorkers(calls[..n]);
      CountsBracket(calls[..n]);
    }
  }

  // The deltas already added to the two totals.
  function AcqAdded(calls: seq<AccountCall>): nat {
    SumBeyond(AcqWorkers(calls), ADD_TOTAL)
  }

  function HldAdded(calls: seq<AccountCall>): nat {
    SumBeyond(HldWorkers(calls), ADD_TOTAL)
  }

  // In every state of every schedule: the totals are the deltas already added, modulo 2^64;
  // each maximum is the starting one or the delta of a call that has already added it.
  lemma EveryInterleaving(named: bool, s: Shared, schedule: seq<nat>)
    requires Start(s)
    ensures var r := Run(named, s, schedule);
      AcqSound(s.stat.acq, r.stat.acq, r.calls) && HldSound(s.stat.hld, r.stat.hld, r.calls)
  {
    InvStart(s);
    InvRun(named, s.stat, s, schedule);
    var r := Run(named, s, schedule);
    AcqInvSound(s.stat.acq, r.stat.acq, r.calls);
    HldInvSound(s.stat.hld, r.stat.hld, r.calls);
  }

  ghost predicate AcqSound(base: Half, h: Half, calls: seq<AccountCall>) {
    && h.total == Wrap64(base.total + AcqAdded(calls))
    && (h.max == base.max
        || exists i :: 0 <= i < |calls| && calls[i].pc > WRITE_MAX && calls[i].acqDelta == h.max)
  }

  ghost predicate HldSound(base: Half, h: Half, calls: seq<AccountCall>) {
    && h.total == Wrap64(base.total + HldAdded(calls))
    && (h.max == base.max
        || exists i :: 0 <= i < |calls| && calls[i].pc > PAST + WRITE_MAX && calls[i].hldDelta == h.max)
  }

  lemma AcqInvSound(base: Half, h: Half, calls: seq<AccountCall>)
    requires HalfInv(base, h, AcqWorkers(calls))
    ensures AcqSound(base, h, calls)
  {
    var ws := AcqWorkers(calls);
    if h.max != base.max {
      var i :| 0 <= i < |ws| && ws[i].k > WRITE_MAX && ws[i].delta == h.max;
      assert calls[i].pc > WRITE_MAX && calls[i].acqDelta == h.max;
    }
  }

  lemma HldInvSound(base: Half, h: Half, calls: seq<AccountCall>)
    requires HalfInv(base, h, HldWorkers(calls))
    ensures HldSound(base, h, calls)
  {
    var ws := HldWorkers(calls);
    if h.max != base.max {
      var i :| 0 <= i < |ws| && ws[i].k > WRITE_MAX && ws[i].delta == h.max;
      assert calls[i].pc > PAST + WRITE_MAX && calls[i].hldDelta == h.max;
    }
  }

  // While the sums stay below 2^64, no maximum exceeds its total.
  lemma MaxWithinTotal(named: bool, s: Shared, schedule: seq<nat>)
    requires Start(s) && s.stat.acq.max <= s.stat.acq.total && s.stat.hld.max <= s.stat.hld.total
    requires s.stat.acq.total + AcqAdded(Run(named, s, schedule).calls) < TWO64
    requires s.stat.hld.total + HldAdded(Run(named, s, schedule).calls) < TWO64
    ensures var r := Run(named, s, schedule);
      r.stat.acq.max <= r.stat.acq.total && r.stat.hld.max <= r.stat.hld.total
  {
    InvStart(s);
    InvRun(named, s.stat, s, schedule);
    var r := Run(named, s, schedule);
    HalfMaxWithinTotal(s.stat.acq, r.stat.acq, AcqWorkers(r.calls));
    HalfMaxWithinTotal(s.stat.hld, r.stat.hld, HldWorkers(r.calls));
  }

  lemma HalfMaxWithinTotal(base: Half, h: Half, ws: seq<Worker>)
    requires HalfInv(base, h, ws) && base.max <= base.total
    requires base.total + SumBeyond(ws, ADD_TOTAL) < TWO64
    ensures h.max <= h.total
  {
    if h.max != base.max {
      var i :| 0 <= i < |ws| && ws[i].k > WRITE_MAX && ws[i].delta == h.max;
      SumBeyondAtLeast(ws, i, ADD_TOTAL);
    }
  }

  // From equal counts, the held count never runs ahead of the acquired count, and lags it by at
  // most the calls in flight.
  lemma CountsStayClose(named: bool, s: Shared, schedule: seq<nat>)
    requires Start(s) && s.stat.acq.count == s.stat.hld.count && s.stat.acq.count + |s.calls| < TWO64
    ensures var r := Run(named, s, schedule);
      r.stat.hld.count <= r.stat.acq.count <= r.stat.hld.count + InFlight(r.calls)
  {
    InvStart(s);
    InvRun(named, s.stat, s, schedule);
    SameCalls(named, s, schedule);
    var r := Run(named, s, schedule);
    CountsBracket(r.calls);
    ExactCount(s.stat.acq, r.stat.acq, AcqWorkers(r.calls));
    ExactCount(s.stat.hld, r.stat.hld, HldWorkers(r.calls));
  }

  lemma ExactCount(base: Half, h: Half, ws: seq<Worker>)
    requires SumsInv(base, h, ws) && base.count + |ws| < TWO64
    ensures h.count == base.count + Beyond(ws, ADD_COUNT)
  {
    WrapSmall(base.count + Beyond(ws, ADD_COUNT));
  }

  lemma {:induction false} SameCalls(named: bool, s: Shared, schedule: seq<nat>)
    ensures |Run(named, s, schedule).calls| == |s.calls|
    ensures forall i :: 0 <= i < |s.calls| ==>
      Run(named, s, schedule).calls[i].(pc := 0) == s.calls[i].(pc := 0)
    decreases |schedule|
  {
    if schedule != [] {
      SameCalls(named, Step(named, s, schedule[0]), schedule[1..]);
    }
  }
}
