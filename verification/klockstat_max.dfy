// When the maximum that concurrent calls of account leave is the true maximum.
module KlockstatMax {
  import opened Machine
  import opened Klockstat
  import opened KlockstatRace

  // At most one worker stands between reading the maximum and having written all of it.
  ghost predicate Alone(ws: seq<Worker>) {
    forall i, j :: 0 <= i < j < |ws| ==> !(Raising(ws[i]) && Raising(ws[j]))
  }

  // No two calls ever overlap in the update of the same maximum.
  ghost predicate Unraced(named: bool, s: Shared, schedule: seq<nat>)
    decreases |schedule|
  {
    && Alone(AcqWorkers(s.calls)) && Alone(HldWorkers(s.calls))
    && (schedule != [] ==> Unraced(named, Step(named, s, schedule[0]), schedule[1..]))
  }

  predicate Names(named: bool, h: Half, w: Worker) {
    w.delta == h.max && w.taskId == h.maxId && w.lockPtr == h.maxLock && (named ==> w.comm == h.maxComm)
  }

  predicate SameMax(named: bool, base: Half, h: Half) {
    base.max == h.max && base.maxId == h.maxId && base.maxLock == h.maxLock && (named ==> base.maxComm == h.maxComm)
  }

  // h holds the true maximum over base and the workers that are past, and names its owner.
  ghost predicate HasMax(named: bool, base: Half, h: Half, ws: seq<Worker>) {
    && base.max <= h.max
    && (forall i :: 0 <= i < |ws| && ws[i].k == PAST ==> ws[i].delta <= h.max)
    && (SameMax(named, base, h) || exists i :: 0 <= i < |ws| && ws[i].k == PAST && Names(named, h, ws[i]))
  }

  ghost predicate MaxInv(named: bool, base: Half, h: Half, ws: seq<Worker>) {
    && (forall i :: 0 <= i < |ws| ==> ws[i].k <= PAST)
    && base.max <= h.max
    && (forall i :: 0 <= i < |ws| && ws[i].k == PAST ==> ws[i].delta <= h.max)
    && ((forall i :: 0 <= i < |ws| ==> !Raising(ws[i])) ==> HasMax(named, base, h, ws))
    && (forall i :: 0 <= i < |ws| && Raising(ws[i]) ==>
          && (ws[i].k == WRITE_MAX ==> ws[i].delta > h.max && HasMax(named, base, h, ws))
          && (ws[i].k > WRITE_MAX ==> ws[i].delta == h.max)
          && (ws[i].k > WRITE_ID ==> ws[i].taskId == h.maxId)
          && (ws[i].k > WRITE_LOCK ==> ws[i].lockPtr == h.maxLock && named))
  }

  // A step of a worker that does not write leaves what the maximum says.
  lemma ReadStepKeepsMax(named: bool, base: Half, h: Half, ws: seq<Worker>, i: nat)
    requires MaxInv(named, base, h, ws) && Alone(ws) && i < |ws| && ws[i].k < WRITE_MAX
    requires Alone(ws[i := ws[i].(k := NextK(named, h, ws[i]))])
    ensures MaxInv(named, base, HalfStep(h, ws[i]), ws[i := ws[i].(k := NextK(named, h, ws[i]))])
  {
    var w := ws[i];
    var h', ws' := HalfStep(h, w), ws[i := w.(k := NextK(named, h, w))];
    if Raising(ws'[i]) {
      assert forall j :: 0 <= j < |ws| && j != i ==> ws'[j] == ws[j] && !Raising(ws[j]);
      assert forall j :: 0 <= j < |ws| ==> !Raising(ws[j]);
      assert HasMax(named, base, h, ws);
    }
    if forall j :: 0 <= j < |ws'| ==> !Raising(ws'[j]) {
      assert forall j :: 0 <= j < |ws| && j != i ==> ws'[j] == ws[j];
      assert forall j :: 0 <= j < |ws| ==> !Raising(ws[j]);
      assert HasMax(named, base, h, ws);
    }
    if HasMax(named, base, h, ws) {
      KeepsMax(named, base, h, ws, h', ws', i);
    }
  }

  // A step that writes is that of the only worker that raises the maximum.
  lemma WriteStepKeepsMax(named: bool, base: Half, h: Half, ws: seq<Worker>, i: nat)
    requires MaxInv(named, base, h, ws) && Alone(ws) && i < |ws| && Raising(ws[i])
    ensures MaxInv(named, base, HalfStep(h, ws[i]), ws[i := ws[i].(k := NextK(named, h, ws[i]))])
  {
    var w := ws[i];
    var h', ws' := HalfStep(h, w), ws[i := w.(k := NextK(named, h, w))];
    assert forall j :: 0 <= j < |ws| && j != i ==> ws'[j] == ws[j] && !Raising(ws[j]);
    if ws'[i].k == PAST {
      assert Names(named, h', ws'[i]);
      assert HasMax(named, base, h', ws');
    }
  }

  lemma MaxInvStep(named: bool, base: Half, h: Half, ws: seq<Worker>, i: nat)
    requires MaxInv(named, base, h, ws) && Alone(ws) && i < |ws| && ws[i].k < PAST
    requires Alone(ws[i := ws[i].(k := NextK(named, h, ws[i]))])
    ensures MaxInv(named, base, HalfStep(h, ws[i]), ws[i := ws[i].(k := NextK(named, h, ws[i]))])
  {
    if Raising(ws[i]) {
      WriteStepKeepsMax(named, base, h, ws, i);
    } else {
      ReadStepKeepsMax(named, base, h, ws, i);
    }
  }

  lemma KeepsMax(named: bool, base: Half, h: Half, ws: seq<Worker>, h': Half, ws': seq<Worker>, i: nat)
    requires HasMax(named, base, h, ws) && i < |ws| && ws[i].k < PAST
    requires |ws'| == |ws| && forall j :: 0 <= j < |ws| && j != i ==> ws'[j] == ws[j]
    requires ws'[i].k == PAST ==> ws'[i].delta <= h.max
    requires h'.max == h.max && h'.maxId == h.maxId && h'.maxLock == h.maxLock && h'.maxComm == h.maxComm
    ensures HasMax(named, base, h', ws')
  {
    if !SameMax(named, base, h) {
      var j :| 0 <= j < |ws| && ws[j].k == PAST && Names(named, h, ws[j]);
      assert ws'[j].k == PAST && Names(named, h', ws'[j]);
    }
  }

  lemma {:induction false} MaxInvRun(named: bool, base: LockStat, s: Shared, schedule: seq<nat>)
    requires Unraced(named, s, schedule)
    requires MaxInv(named, base.acq, s.stat.acq, AcqWorkers(s.calls))
    requires MaxInv(named, base.hld, s.stat.hld, HldWorkers(s.calls))
    ensures var r := Run(named, s, schedule);
      && MaxInv(named, base.acq, r.stat.acq, AcqWorkers(r.calls))
      && MaxInv(named, base.hld, r.stat.hld, HldWorkers(r.calls))
    decreases |schedule|
  {
    if schedule != [] {
      MaxInvBothStep(named, base, s, schedule[0]);
      MaxInvRun(named, base, Step(named, s, schedule[0]), schedule[1..]);
    }
  }

  lemma {:induction false} MaxInvBothStep(named: bool, base: LockStat, s: Shared, i: nat)
    requires Alone(AcqWorkers(s.calls)) && Alone(HldWorkers(s.calls))
    requires MaxInv(named, base.acq, s.stat.acq, AcqWorkers(s.calls))
    requires MaxInv(named, base.hld, s.stat.hld, HldWorkers(s.calls))
    requires var s' := Step(named, s, i); Alone(AcqWorkers(s'.calls)) && Alone(HldWorkers(s'.calls))
    ensures var s' := Step(named, s, i);
      && MaxInv(named, base.acq, s'.stat.acq, AcqWorkers(s'.calls))
      && MaxInv(named, base.hld, s'.stat.hld, HldWorkers(s'.calls))
  {
    if i < |s.calls| && s.calls[i].pc < 2 * PAST {
      StepMovesOneWorker(named, s, i);
      if s.calls[i].pc < PAST {
        MaxInvStep(named, base.acq, s.stat.acq, AcqWorkers(s.calls), i);
      } else {
        MaxInvStep(named, base.hld, s.stat.hld, HldWorkers(s.calls), i);
      }
    }
  }

  // If no two calls overlap between reading and writing a maximum, then once all calls have
  // returned each maximum is the true one over the starting value and all deltas, and its id, lock
  // and name belong to a call that attains it.
  lemma UnracedMaxIsTrue(named: bool, s: Shared, schedule: seq<nat>)
    requires Start(s) && Unraced(named, s, schedule)
    requires AllReturned(Run(named, s, schedule))
    ensures MaxOver(named, s.stat.acq, Run(named, s, schedule).stat.acq, AcqWorkers(s.calls))
    ensures MaxOver(named, s.stat.hld, Run(named, s, schedule).stat.hld, HldWorkers(s.calls))
  {
    MaxInvRun(named, s.stat, s, schedule);
    SameCalls(named, s, schedule);
    var r := Run(named, s, schedule);
    ReturnedWorkers(s.calls, r.calls);
    HasMaxIsMaxOver(named, s.stat.acq, r.stat.acq, AcqWorkers(r.calls), AcqWorkers(s.calls));
    HasMaxIsMaxOver(named, s.stat.hld, r.stat.hld, HldWorkers(r.calls), HldWorkers(s.calls));
  }

  lemma ReturnedWorkers(calls: seq<AccountCall>, done: seq<AccountCall>)
    requires |done| == |calls| && forall i :: 0 <= i < |done| ==> done[i].pc == 2 * PAST
    requires forall i :: 0 <= i < |calls| ==> done[i].(pc := 0) == calls[i].(pc := 0)
    ensures forall i :: 0 <= i < |calls| ==> AcqWorkers(done)[i] == AcqWorkers(calls)[i].(k := PAST)
    ensures forall i :: 0 <= i < |calls| ==> HldWorkers(done)[i] == HldWorkers(calls)[i].(k := PAST)
  {
    forall i | 0 <= i < |calls|
      ensures AcqWorkers(done)[i] == AcqWorkers(calls)[i].(k := PAST)
      ensures HldWorkers(done)[i] == HldWorkers(calls)[i].(k := PAST)
    {
      assert done[i].(pc := 0) == calls[i].(pc := 0);
    }
  }

  // h is the maximum of base and of all the workers' deltas, and names an owner of it.
  ghost predicate MaxOver(named: bool, base: Half, h: Half, ws: seq<Worker>) {
    && base.max <= h.max
    && (forall i :: 0 <= i < |ws| ==> ws[i].delta <= h.max)
    && (SameMax(named, base, h) || exists i :: 0 <= i < |ws| && Names(named, h, ws[i]))
  }

  lemma HasMaxIsMaxOver(named: bool, base: Half, h: Half, done: seq<Worker>, ws: seq<Worker>)
    requires MaxInv(named, base, h, done)
    requires |done| == |ws| && forall i :: 0 <= i < |ws| ==> done[i] == ws[i].(k := PAST)
    ensures MaxOver(named, base, h, ws)
  {
    assert HasMax(named, base, h, done);
    forall i | 0 <= i < |ws|
      ensures ws[i].delta <= h.max
    {
      assert done[i].delta <= h.max;
    }
    if !SameMax(named, base, h) {
      var i :| 0 <= i < |done| && done[i].k == PAST && Names(named, h, done[i]);
      assert Names(named, h, ws[i]);
    }
  }

  // ---------------------------------------------------------------------------
  // Exactly when no delta that was written is forgotten
  // ---------------------------------------------------------------------------

  // The next step of w writes a maximum below the one it replaces. Reading the maximum again at
  // the write would prevent it.
  predicate Lowers(h: Half, w: Worker) {
    w.k == WRITE_MAX && w.delta < h.max
  }

  ghost predicate NeverLowers(named: bool, s: Shared, schedule: seq<nat>)
    decreases |schedule|
  {
    schedule == [] || (
      var i := schedule[0];
      && (i < |s.calls| && s.calls[i].pc < 2 * PAST ==>
            !Lowers(s.stat.acq, AcqWorker(s.calls[i])) && !Lowers(s.stat.hld, HldWorker(s.calls[i])))
      && NeverLowers(named, Step(named, s, i), schedule[1..]))
  }

  // The maximum is at least every delta whose worker has written it or found it too small.
  ghost predicate Covers(h: Half, ws: seq<Worker>) {
    forall i :: 0 <= i < |ws| && ws[i].k > WRITE_MAX ==> ws[i].delta <= h.max
  }

  ghost predicate CoversBoth(s: Shared) {
    Covers(s.stat.acq, AcqWorkers(s.calls)) && Covers(s.stat.hld, HldWorkers(s.calls))
  }

  // In every state of the run.
  ghost predicate AlwaysCovers(named: bool, s: Shared, schedule: seq<nat>)
    decreases |schedule|
  {
    CoversBoth(s) && (schedule != [] ==> AlwaysCovers(named, Step(named, s, schedule[0]), schedule[1..]))
  }

  // A step keeps the maximum above the deltas if it does not lower it, and only then, because the
  // maximum that it replaces is one of them.
  lemma CoversStep(named: bool, base: Half, h: Half, ws: seq<Worker>, i: nat)
    requires BoundInv(base, h, ws) && Covers(h, ws) && i < |ws| && ws[i].k < PAST
    ensures Covers(HalfStep(h, ws[i]), ws[i := ws[i].(k := NextK(named, h, ws[i]))]) <==> !Lowers(h, ws[i])
  {
    var w := ws[i];
    var h', ws' := HalfStep(h, w), ws[i := w.(k := NextK(named, h, w))];
    if Lowers(h, w) {
      assert Raising(w) && h.max > base.max;
      var j :| 0 <= j < |ws| && ws[j].k > WRITE_MAX && ws[j].delta == h.max;
      assert ws'[j] == ws[j] && ws'[j].delta > h'.max;
    }
  }

  lemma CoversBothStep(named: bool, base: LockStat, s: Shared, i: nat)
    requires Inv(base, s) && CoversBoth(s) && i < |s.calls| && s.calls[i].pc < 2 * PAST
    ensures CoversBoth(Step(named, s, i)) <==>
      !Lowers(s.stat.acq, AcqWorker(s.calls[i])) && !Lowers(s.stat.hld, HldWorker(s.calls[i]))
  {
    StepMovesOneWorker(named, s, i);
    if s.calls[i].pc < PAST {
      CoversStep(named, base.acq, s.stat.acq, AcqWorkers(s.calls), i);
    } else {
      CoversStep(named, base.hld, s.stat.hld, HldWorkers(s.calls), i);
    }
  }

  lemma {:induction false} CoversExactlyFrom(named: bool, base: LockStat, s: Shared, schedule: seq<nat>)
    requires Inv(base, s) && CoversBoth(s)
    ensures AlwaysCovers(named, s, schedule) <==> NeverLowers(named, s, schedule)
    decreases |schedule|
  {
    if schedule != [] {
      var i := schedule[0];
      var s' := Step(named, s, i);
      InvStep(named, base, s, i);
      if i < |s.calls| && s.calls[i].pc < 2 * PAST {
        CoversBothStep(named, base, s, i);
      }
      if CoversBoth(s') {
        CoversExactlyFrom(named, base, s', schedule[1..]);
      }
    }
  }

  // For every schedule: in every state both maxima are at least all deltas written so far, if and
  // only if no write puts a delta below the maximum that it replaces.
  lemma MaximaCoverExactly(named: bool, s: Shared, schedule: seq<nat>)
    requires Start(s)
    ensures AlwaysCovers(named, s, schedule) <==> NeverLowers(named, s, schedule)
  {
    InvStart(s);
    CoversExactlyFrom(named, s.stat, s, schedule);
  }

  lemma {:induction false} AlwaysCoversLast(named: bool, s: Shared, schedule: seq<nat>)
    requires AlwaysCovers(named, s, schedule)
    ensures CoversBoth(Run(named, s, schedule))
    decreases |schedule|
  {
    if schedule != [] {
      AlwaysCoversLast(named, Step(named, s, schedule[0]), schedule[1..]);
    }
  }

  // So without such a write each maximum is the true one over the starting value and all deltas,
  // once all calls have returned, however they overlapped.
  lemma {:induction false} UnloweredMaxIsTrue(named: bool, s: Shared, schedule: seq<nat>)
    requires Start(s) && NeverLowers(named, s, schedule)
    requires AllReturned(Run(named, s, schedule))
    ensures var r := Run(named, s, schedule);
      && IsMax(s.stat.acq.max, AcqWorkers(r.calls), r.stat.acq.max)
      && IsMax(s.stat.hld.max, HldWorkers(r.calls), r.stat.hld.max)
  {
    MaximaCoverExactly(named, s, schedule);
    AlwaysCoversLast(named, s, schedule);
    InvStart(s);
    InvRun(named, s.stat, s, schedule);
    var r := Run(named, s, schedule);
    forall i | 0 <= i < |r.calls|
      ensures AcqWorkers(r.calls)[i].k == PAST && HldWorkers(r.calls)[i].k == PAST
    {
      assert r.calls[i].pc == 2 * PAST;
    }
    CoveredIsMax(s.stat.acq, r.stat.acq, AcqWorkers(r.calls));
    CoveredIsMax(s.stat.hld, r.stat.hld, HldWorkers(r.calls));
  }

  // m is the greatest of `least` and the deltas.
  ghost predicate IsMax(least: U64, ws: seq<Worker>, m: U64) {
    && least <= m && (forall i :: 0 <= i < |ws| ==> ws[i].delta <= m)
    && (m == least || exists i :: 0 <= i < |ws| && ws[i].delta == m)
  }

  lemma {:induction false} CoveredIsMax(base: Half, h: Half, ws: seq<Worker>)
    requires BoundInv(base, h, ws) && Covers(h, ws) && forall i :: 0 <= i < |ws| ==> ws[i].k == PAST
    ensures IsMax(base.max, ws, h.max)
  {
  }

  // Calls that do not overlap in the update of a maximum never lower it.
  lemma {:induction false} UnracedNeverLowersFrom(named: bool, base: LockStat, s: Shared, schedule: seq<nat>)
    requires Unraced(named, s, schedule)
    requires MaxInv(named, base.acq, s.stat.acq, AcqWorkers(s.calls))
    requires MaxInv(named, base.hld, s.stat.hld, HldWorkers(s.calls))
    ensures NeverLowers(named, s, schedule)
    decreases |schedule|
  {
    if schedule != [] {
      var i := schedule[0];
      if i < |s.calls| && s.calls[i].pc < 2 * PAST {
        HighestDoesNotLower(named, base.acq, s.stat.acq, AcqWorkers(s.calls), i);
        HighestDoesNotLower(named, base.hld, s.stat.hld, HldWorkers(s.calls), i);
      }
      MaxInvBothStep(named, base, s, i);
      UnracedNeverLowersFrom(named, base, Step(named, s, i), schedule[1..]);
    }
  }

  lemma {:induction false} HighestDoesNotLower(named: bool, base: Half, h: Half, ws: seq<Worker>, i: nat)
    requires MaxInv(named, base, h, ws) && i < |ws|
    ensures !Lowers(h, ws[i])
  {
    if ws[i].k == WRITE_MAX {
      assert Raising(ws[i]);
    }
  }

  lemma {:induction false} UnracedNeverLowers(named: bool, s: Shared, schedule: seq<nat>)
    requires Start(s) && Unraced(named, s, schedule)
    ensures NeverLowers(named, s, schedule)
  {
    UnracedNeverLowersFrom(named, s.stat, s, schedule);
  }

  // ---------------------------------------------------------------------------
  // Whom the maximum names
  // ---------------------------------------------------------------------------

  // The call that wrote each field of a half last.
  datatype Writers = Writers(max: Option<nat>, id: Option<nat>, lock: Option<nat>, comm: Option<nat>)

  datatype BothWriters = BothWriters(acq: Writers, hld: Writers)

  const NOBODY := Writers(None, None, None, None)

  function Marked(o: Writers, i: nat, w: Worker): Writers {
    match w.k
    case 3 => o.(max := Some(i))
    case 4 => o.(id := Some(i))
    case 5 => o.(lock := Some(i))
    case 6 => o.(comm := Some(i))
    case _ => o
  }

  function MarkedBoth(s: Shared, i: nat, o: BothWriters): BothWriters {
    if i >= |s.calls| || s.calls[i].pc >= 2 * PAST then o
    else if s.calls[i].pc < PAST then o.(acq := Marked(o.acq, i, AcqWorker(s.calls[i])))
    else o.(hld := Marked(o.hld, i, HldWorker(s.calls[i])))
  }

  function LastWriters(named: bool, s: Shared, schedule: seq<nat>, o: BothWriters): BothWriters
    decreases |schedule|
  {
    if schedule == [] then o
    else LastWriters(named, Step(named, s, schedule[0]), schedule[1..], MarkedBoth(s, schedule[0], o))
  }

  // Every field is that of the call that wrote it last.
  ghost predicate WrittenBy(base: Half, h: Half, ws: seq<Worker>, o: Writers) {
    && (match o.max
        case None => h.max == base.max
        case Some(i) => i < |ws| && ws[i].k > WRITE_MAX && base.max < h.max == ws[i].delta)
    && (match o.id
        case None => h.maxId == base.maxId
        case Some(i) => i < |ws| && ws[i].k > WRITE_ID && h.maxId == ws[i].taskId)
    && (match o.lock
        case None => h.maxLock == base.maxLock
        case Some(i) => i < |ws| && ws[i].k > WRITE_LOCK && h.maxLock == ws[i].lockPtr)
    && (match o.comm
        case None => h.maxComm == base.maxComm
        case Some(i) => i < |ws| && ws[i].k > WRITE_COMM && h.maxComm == ws[i].comm)
  }

  // The maximum is the first field written, and whoever wrote it goes on to the others.
  ghost predicate InOrder(named: bool, ws: seq<Worker>, o: Writers) {
    && (o.max.None? ==> o == NOBODY && forall i :: 0 <= i < |ws| ==> !(WRITE_MAX < ws[i].k < PAST))
    && (o.max.Some? && o.max.value < |ws| ==>
          var k := ws[o.max.value].k;
          && k > WRITE_MAX && (k > WRITE_ID ==> o.id.Some?)
          && (k > WRITE_LOCK ==> o.lock.Some?)
          && (k > WRITE_COMM && named ==> o.comm.Some?))
  }

  ghost predicate WritersInv(named: bool, base: Half, h: Half, ws: seq<Worker>, o: Writers) {
    WrittenBy(base, h, ws, o) && InOrder(named, ws, o)
  }

  lemma WrittenByStep(named: bool, base: Half, h: Half, ws: seq<Worker>, o: Writers, i: nat)
    requires WrittenBy(base, h, ws, o) && BoundInv(base, h, ws) && i < |ws| && ws[i].k < PAST
    ensures WrittenBy(base, HalfStep(h, ws[i]), ws[i := ws[i].(k := NextK(named, h, ws[i]))], Marked(o, i, ws[i]))
  {
    assert ws[i].k == WRITE_MAX ==> Raising(ws[i]);
  }

  lemma InOrderStep(named: bool, h: Half, ws: seq<Worker>, o: Writers, i: nat)
    requires InOrder(named, ws, o) && i < |ws| && ws[i].k < PAST
    ensures InOrder(named, ws[i := ws[i].(k := NextK(named, h, ws[i]))], Marked(o, i, ws[i]))
  {
  }

  ghost predicate BothInv(named: bool, base: LockStat, s: Shared, o: BothWriters) {
    && Inv(base, s)
    && WritersInv(named, base.acq, s.stat.acq, AcqWorkers(s.calls), o.acq)
    && WritersInv(named, base.hld, s.stat.hld, HldWorkers(s.calls), o.hld)
  }

  lemma BothInvStep(named: bool, base: LockStat, s: Shared, o: BothWriters, i: nat)
    requires BothInv(named, base, s, o)
    ensures BothInv(named, base, Step(named, s, i), MarkedBoth(s, i, o))
  {
    InvStep(named, base, s, i);
    if i < |s.calls| && s.calls[i].pc < 2 * PAST {
      StepMovesOneWorker(named, s, i);
      if s.calls[i].pc < PAST {
        WrittenByStep(named, base.acq, s.stat.acq, AcqWorkers(s.calls), o.acq, i);
        InOrderStep(named, s.stat.acq, AcqWorkers(s.calls), o.acq, i);
      } else {
        WrittenByStep(named, base.hld, s.stat.hld, HldWorkers(s.calls), o.hld, i);
        InOrderStep(named, s.stat.hld, HldWorkers(s.calls), o.hld, i);
      }
    }
  }

  lemma {:induction false} BothInvRun(named: bool, base: LockStat, s: Shared, schedule: seq<nat>, o: BothWriters)
    requires BothInv(named, base, s, o)
    ensures BothInv(named, base, Run(named, s, schedule), LastWriters(named, s, schedule, o))
    decreases |schedule|
  {
    if schedule != [] {
      BothInvStep(named, base, s, o, schedule[0]);
      BothInvRun(named, base, Step(named, s, schedule[0]), schedule[1..], MarkedBoth(s, schedule[0], o));
    }
  }

  // In every state of every schedule, each field of a maximum is that of the call that wrote it
  // last, or the one it started with.
  lemma FieldsOfLastWriters(named: bool, s: Shared, schedule: seq<nat>)
    requires Start(s)
    ensures var r, o := Run(named, s, schedule), LastWriters(named, s, schedule, BothWriters(NOBODY, NOBODY));
      && BothInv(named, s.stat, r, o)
      && WrittenBy(s.stat.acq, r.stat.acq, AcqWorkers(r.calls), o.acq)
      && WrittenBy(s.stat.hld, r.stat.hld, HldWorkers(r.calls), o.hld)
  {
    InvStart(s);
    BothInvRun(named, s.stat, s, schedule, BothWriters(NOBODY, NOBODY));
  }

  ghost predicate Quiet(ws: seq<Worker>) {
    forall i :: 0 <= i < |ws| ==> !Raising(ws[i])
  }

  // Nobody wrote, or one call has the delta, the task, the lock and the name of the last writers of
  // these fields; so always when they are one call.
  ghost predicate OneOwner(named: bool, ws: seq<Worker>, o: Writers) {
    o.max.None? || exists i :: 0 <= i < |ws| && ws[i].k == PAST && LikeWriters(named, ws, o, ws[i])
  }

  predicate LikeWriters(named: bool, ws: seq<Worker>, o: Writers, w: Worker) {
    && o.max.Some? && o.max.value < |ws| && w.delta == ws[o.max.value].delta
    && o.id.Some? && o.id.value < |ws| && w.taskId == ws[o.id.value].taskId
    && o.lock.Some? && o.lock.value < |ws| && w.lockPtr == ws[o.lock.value].lockPtr
    && (named ==> o.comm.Some? && o.comm.value < |ws| && w.comm == ws[o.comm.value].comm)
  }

  lemma OwnerOfHalf(named: bool, base: Half, h: Half, ws: seq<Worker>, o: Writers)
    requires BoundInv(base, h, ws) && Covers(h, ws) && WritersInv(named, base, h, ws, o) && Quiet(ws)
    ensures HasMax(named, base, h, ws) <==> OneOwner(named, ws, o)
  {
    if o.max.None? {
      assert SameMax(named, base, h);
    } else {
      var m := o.max.value;
      assert !Raising(ws[m]) && ws[m].k == PAST;
      assert o.id.Some? && o.lock.Some? && (named ==> o.comm.Some?);
      assert forall i :: 0 <= i < |ws| ==> (Names(named, h, ws[i]) <==> LikeWriters(named, ws, o, ws[i]));
    }
  }

  // When no call is in the middle of the update and no write lowered the maximum, it is the true one
  // over the calls that are past it, and the task, lock and name beside it are of one call that
  // attains it, if and only if those that wrote these fields last are like one call.
  lemma OwnerExactly(named: bool, s: Shared, schedule: seq<nat>)
    requires Start(s) && NeverLowers(named, s, schedule)
    ensures var r, o := Run(named, s, schedule), LastWriters(named, s, schedule, BothWriters(NOBODY, NOBODY));
      var acqs, hlds := AcqWorkers(r.calls), HldWorkers(r.calls);
      && (Quiet(acqs) ==> (HasMax(named, s.stat.acq, r.stat.acq, acqs) <==> OneOwner(named, acqs, o.acq)))
      && (Quiet(hlds) ==> (HasMax(named, s.stat.hld, r.stat.hld, hlds) <==> OneOwner(named, hlds, o.hld)))
  {
    FieldsOfLastWriters(named, s, schedule);
    MaximaCoverExactly(named, s, schedule);
    AlwaysCoversLast(named, s, schedule);
    var r, o := Run(named, s, schedule), LastWriters(named, s, schedule, BothWriters(NOBODY, NOBODY));
    if Quiet(AcqWorkers(r.calls)) {
      OwnerOfHalf(named, s.stat.acq, r.stat.acq, AcqWorkers(r.calls), o.acq);
    }
    if Quiet(HldWorkers(r.calls)) {
      OwnerOfHalf(named, s.stat.hld, r.stat.hld, HldWorkers(r.calls), o.hld);
    }
  }

  // ---------------------------------------------------------------------------
  // Schedules that go wrong
  // ---------------------------------------------------------------------------

  // Two calls that both read the old maximum before either writes: the larger delta is lost.
  const RACERS := Shared(ZERO_STAT, [AccountCall(0, 10, 0, 1, 1, "a"), AccountCall(0, 5, 0, 2, 2, "b")])
  const RACE := [0, 0, 0, 1, 1, 1, 0, 1]

  // Both have written, and the maximum is 5 although one of them waited 10. A write lowered it.
  const AFTER_RACE := Shared(
    LockStat(ZERO_HALF.(count := 2, total := 15, max := 5), ZERO_HALF),
    [AccountCall(WRITE_MAX + 1, 10, 0, 1, 1, "a"), AccountCall(WRITE_MAX + 1, 5, 0, 2, 2, "b")])

  lemma {:induction false} RaceLosesTheMaximum()
    ensures Start(RACERS) && Run(true, RACERS, RACE) == AFTER_RACE
    ensures !AlwaysCovers(true, RACERS, RACE) && !NeverLowers(true, RACERS, RACE)
  {
    RaceEnds();
    MaximaCoverExactly(true, RACERS, RACE);
    if AlwaysCovers(true, RACERS, RACE) {
      AlwaysCoversLast(true, RACERS, RACE);
      RaceForgets(AFTER_RACE);
    }
  }

  lemma RaceForgets(s: Shared)
    requires |s.calls| > 0 && s.calls[0].pc == WRITE_MAX + 1 && s.calls[0].acqDelta > s.stat.acq.max
    ensures !CoversBoth(s)
  {
    assert AcqWorkers(s.calls)[0] == AcqWorker(s.calls[0]);
  }

  lemma {:induction false} RaceEnds()
    ensures Run(true, RACERS, RACE) == AFTER_RACE
  {
    var a, b := RACERS.calls[0], RACERS.calls[1];
    var h := ZERO_HALF;
    var s1 := Shared(LockStat(h.(count := 1), h), [a.(pc := 1), b]);
    var s2 := Shared(LockStat(h.(count := 1, total := 10), h), [a.(pc := 2), b]);
    var s3 := s2.(calls := [a.(pc := 3), b]);
    var s4 := Shared(LockStat(h.(count := 2, total := 10), h), [a.(pc := 3), b.(pc := 1)]);
    var s5 := Shared(LockStat(h.(count := 2, total := 15), h), [a.(pc := 3), b.(pc := 2)]);
    var s6 := s5.(calls := [a.(pc := 3), b.(pc := 3)]);
    var s7 := Shared(LockStat(h.(count := 2, total := 15, max := 10), h), [a.(pc := 4), b.(pc := 3)]);
    var s8 := Shared(LockStat(h.(count := 2, total := 15, max := 5), h), [a.(pc := 4), b.(pc := 4)]);
    RaceStep(RACERS, 0, s1, [0, 0, 1, 1, 1, 0, 1]);
    RaceStep(s1, 0, s2, [0, 1, 1, 1, 0, 1]);
    RaceStep(s2, 0, s3, [1, 1, 1, 0, 1]);
    RaceStep(s3, 1, s4, [1, 1, 0, 1]);
    RaceStep(s4, 1, s5, [1, 0, 1]);
    RaceStep(s5, 1, s6, [0, 1]);
    RaceStep(s6, 0, s7, [1]);
    RaceStep(s7, 1, s8, []);
    assert RACE == [0] + [0, 0, 1, 1, 1, 0, 1];
  }

  lemma {:induction false} RaceStep(s: Shared, i: nat, s': Shared, rest: seq<nat>)
    requires Step(true, s, i) == s'
    ensures Run(true, s, [i] + rest) == Run(true, s', rest)
  {
    assert ([i] + rest)[1..] == rest;
  }

  // Two calls whose writes cross: the maximum is the second one's, named by the first one's task.
  const CROSSERS := Shared(ZERO_STAT, [AccountCall(0, 5, 0, 1, 1, "a"), AccountCall(0, 10, 0, 2, 2, "b")])
  const CROSSING := [0, 0, 0] + ([1, 1, 1] + [0, 1, 1, 0, 0, 1])

  // Both have read the old maximum.
  const BOTH_READ := Shared(
    LockStat(ZERO_HALF.(count := 2, total := 15), ZERO_HALF),
    [AccountCall(WRITE_MAX, 5, 0, 1, 1, "a"), AccountCall(WRITE_MAX, 10, 0, 2, 2, "b")])

  const AFTER_CROSSING := Shared(
    LockStat(ZERO_HALF.(count := 2, total := 15, max := 10, maxId := 1, maxLock := 2), ZERO_HALF),
    [AccountCall(PAST, 5, 0, 1, 1, "a"), AccountCall(PAST, 10, 0, 2, 2, "b")])

  // No write lowers the maximum, and yet no call is the owner that it names.
  lemma {:induction false} CrossingTearsTheOwner()
    ensures Start(CROSSERS) && NeverLowers(false, CROSSERS, CROSSING)
    ensures Run(false, CROSSERS, CROSSING) == AFTER_CROSSING
    ensures Quiet(AcqWorkers(AFTER_CROSSING.calls))
    ensures !HasMax(false, ZERO_HALF, AFTER_CROSSING.stat.acq, AcqWorkers(AFTER_CROSSING.calls))
  {
    CrossersRead([0, 1, 1, 0, 0, 1]);
    CrossersWrite();
  }

  lemma {:induction false} CrossersRead(rest: seq<nat>)
    ensures Run(false, CROSSERS, [0, 0, 0] + ([1, 1, 1] + rest)) == Run(false, BOTH_READ, rest)
    ensures NeverLowers(false, BOTH_READ, rest) ==> NeverLowers(false, CROSSERS, [0, 0, 0] + ([1, 1, 1] + rest))
  {
    var h := ZERO_HALF.(count := 1, total := 5);
    var s := Shared(LockStat(h, ZERO_HALF), [CROSSERS.calls[0].(pc := WRITE_MAX), CROSSERS.calls[1]]);
    ReadsMax(CROSSERS, 0, s, [1, 1, 1] + rest);
    ReadsMax(s, 1, BOTH_READ, rest);
  }

  // Three steps of a call that finds the maximum too small.
  lemma {:induction false} ReadsMax(s: Shared, i: nat, s': Shared, rest: seq<nat>)
    requires i < |s.calls| && s.calls[i].pc == 0 && s.calls[i].acqDelta > s.stat.acq.max
    requires s' == Shared(s.stat.(acq := Added(s.stat.acq, s.calls[i].acqDelta)),
                          s.calls[i := s.calls[i].(pc := WRITE_MAX)])
    ensures Run(false, s, [i, i, i] + rest) == Run(false, s', rest)
    ensures NeverLowers(false, s', rest) ==> NeverLowers(false, s, [i, i, i] + rest)
  {
    var s1 := Step(false, s, i);
    var s2 := Step(false, s1, i);
    CrossStep(s, i, s1, [i] + ([i] + rest));
    CrossStep(s1, i, s2, [i] + rest);
    CrossStep(s2, i, s', rest);
    assert [i, i, i] + rest == [i] + ([i] + ([i] + rest));
  }

  lemma {:induction false} CrossersWrite()
    ensures NeverLowers(false, BOTH_READ, [0, 1, 1, 0, 0, 1])
    ensures Run(false, BOTH_READ, [0, 1, 1, 0, 0, 1]) == AFTER_CROSSING
  {
    var a, b := CROSSERS.calls[0], CROSSERS.calls[1];
    var h := ZERO_HALF.(count := 2, total := 15);
    var s1 := Shared(LockStat(h.(max := 5), ZERO_HALF), [a.(pc := 4), b.(pc := 3)]);
    var s2 := Shared(LockStat(h.(max := 10), ZERO_HALF), [a.(pc := 4), b.(pc := 4)]);
    var s3 := Shared(LockStat(h.(max := 10, maxId := 2), ZERO_HALF), [a.(pc := 4), b.(pc := 5)]);
    var s4 := Shared(LockStat(h.(max := 10, maxId := 1), ZERO_HALF), [a.(pc := 5), b.(pc := 5)]);
    var s5 := Shared(LockStat(h.(max := 10, maxId := 1, maxLock := 1), ZERO_HALF), [a.(pc := 7), b.(pc := 5)]);
    CrossStep(BOTH_READ, 0, s1, [1, 1, 0, 0, 1]);
    CrossStep(s1, 1, s2, [1, 0, 0, 1]);
    CrossStep(s2, 1, s3, [0, 0, 1]);
    CrossStep(s3, 0, s4, [0, 1]);
    CrossStep(s4, 0, s5, [1]);
    CrossStep(s5, 1, AFTER_CROSSING, []);
  }

  lemma {:induction false} CrossStep(s: Shared, i: nat, s': Shared, rest: seq<nat>)
    requires i < |s.calls| && s.calls[i].pc < PAST && Step(false, s, i) == s'
    requires !Lowers(s.stat.acq, AcqWorker(s.calls[i]))
    ensures Run(false, s, [i] + rest) == Run(false, s', rest)
    ensures NeverLowers(false, s', rest) ==> NeverLowers(false, s, [i] + rest)
  {
    assert ([i] + rest)[1..] == rest;
  }
}
