// What every run of the ksnoop program keeps.
module KsnoopSafety {
  import opened Machine
  import opened KsnoopStack
  import opened Ksnoop
  import opened KsnoopRun
  import opened KsnoopScan

  // ---------------------------------------------------------------------------
  // Stash mode
  // ---------------------------------------------------------------------------

  // An entry that passed the pid filter and every entry predicate that could be evaluated, and
  // recorded data.
  ghost predicate GoodEntry(spec: Spec, p: Probe) {
    p.entry && GoodProbe(spec, p)
  }

  ghost predicate GoodProbe(spec: Spec, p: Probe) {
    && ValidProbe(p) && |spec.values| == MAX_TRACES
    && (spec.filterPid == 0 || spec.filterPid == p.pid)
    && PredicatesHold(spec, p, MAX_TRACES)
    && |Chunks(spec, p, MAX_TRACES)| > 0
  }

  // Item j stashed the data of a good entry into the function at ip, whose record is not wiped
  // between j and n.
  ghost predicate StashedAt(log: seq<Item>, j: nat, n: nat, ip: U64, spec: Spec) {
    && j < n <= |log|
    && log[j].Stashed? && log[j].ip == ip && log[j].probe.ip == ip && GoodEntry(spec, log[j].probe)
    && forall k :: j < k < n ==> log[k] != Wiped(ip)
  }

  ghost predicate Witnessed(log: seq<Item>, n: nat, ip: U64, spec: Spec) {
    exists j :: StashedAt(log, j, n, ip, spec)
  }

  // A stash-mode function is marked STASHED, or was emitted, only after a good entry whose data
  // has not been wiped since.
  ghost predicate StashInv(s: State) {
    && ValidState(s)
    && (forall ip :: ip in s.traces && s.traces[ip].spec.stash && s.traces[ip].flags.stashed ==>
          Witnessed(s.log, |s.log|, ip, s.traces[ip].spec))
    && (forall k :: 0 <= k < |s.log| && s.log[k].Emitted? && s.log[k].trace.spec.stash ==>
          Witnessed(s.log, k, s.log[k].ip, s.log[k].trace.spec))
  }

  // Data of a stash-mode function about to be output is witnessed, or was just recorded by a
  // good entry and is marked STASH.
  ghost predicate Covered(s: State, ip: U64, p: Probe)
    requires ip in s.traces
  {
    var t := s.traces[ip];
    t.spec.stash && t.bufLen > 0 ==>
      Witnessed(s.log, |s.log|, ip, t.spec) || (t.flags.stash && p.ip == ip && GoodEntry(t.spec, p))
  }

  lemma WitnessLasts(log: seq<Item>, n: nat, item: Item, ip: U64, spec: Spec)
    requires Witnessed(log, n, ip, spec) && n <= |log|
    ensures Witnessed(log + [item], n, ip, spec)
    ensures n == |log| && item != Wiped(ip) ==> Witnessed(log + [item], n + 1, ip, spec)
  {
    var j :| StashedAt(log, j, n, ip, spec);
    assert StashedAt(log + [item], j, n, ip, spec);
    if n == |log| && item != Wiped(ip) {
      assert StashedAt(log + [item], j, n + 1, ip, spec);
    }
  }

  // Logging an item keeps what is known of all records that it does not concern.
  lemma LogItem(s: State, ip: U64, t: Trace, item: Item)
    requires StashInv(s) && ValidTrace(t) && item.ip == ip
    requires t.spec.stash && t.flags.stashed ==> Witnessed(s.log + [item], |s.log| + 1, ip, t.spec)
    requires item.Emitted? && item.trace.spec.stash ==> Witnessed(s.log, |s.log|, ip, item.trace.spec)
    ensures StashInv(Put(s, ip, t).(log := s.log + [item]))
  {
    var r := Put(s, ip, t).(log := s.log + [item]);
    forall q | q in r.traces && r.traces[q].spec.stash && r.traces[q].flags.stashed
      ensures Witnessed(r.log, |r.log|, q, r.traces[q].spec)
    {
      if q != ip {
        WitnessLasts(s.log, |s.log|, item, q, s.traces[q].spec);
      }
    }
    forall k | 0 <= k < |r.log| && r.log[k].Emitted? && r.log[k].trace.spec.stash
      ensures Witnessed(r.log, k, r.log[k].ip, r.log[k].trace.spec)
    {
      WitnessLasts(s.log, k, item, r.log[k].ip, r.log[k].trace.spec);
    }
  }

  lemma WipeKeeps(s: State, ip: U64)
    requires StashInv(s) && ip in s.traces
    ensures StashInv(Wipe(s, ip))
  {
    LogItem(s, ip, Cleared(s.traces[ip]), Wiped(ip));
  }

  lemma PutKeeps(s: State, ip: U64, t: Trace)
    requires StashInv(s) && ip in s.traces && ValidTrace(t)
    requires t.spec == s.traces[ip].spec && t.flags.stashed == s.traces[ip].flags.stashed
    ensures StashInv(Put(s, ip, t))
  {
  }

  lemma OtherStaysCovered(s: State, ip: U64, t: Trace, item: Item, cur: U64, p: Probe)
    requires cur in s.traces && cur != ip && Covered(s, cur, p) && item.ip == ip
    ensures Covered(Put(s, ip, t).(log := s.log + [item]), cur, p)
  {
    var spec := s.traces[cur].spec;
    if Witnessed(s.log, |s.log|, cur, spec) {
      WitnessLasts(s.log, |s.log|, item, cur, spec);
    }
  }

  lemma OutputTraceKeeps(s: State, ip: U64, cur: U64, p: Probe)
    requires StashInv(s) && ip in s.traces && cur in s.traces
    requires Covered(s, ip, p) && Covered(s, cur, p)
    ensures StashInv(OutputTrace(s, ip, p)) && Covered(OutputTrace(s, ip, p), cur, p)
  {
    var t := s.traces[ip];
    if t.bufLen == 0 {
      WipeKeeps(s, ip);
      if cur != ip {
        OtherStaysCovered(s, ip, Cleared(t), Wiped(ip), cur, p);
      }
    } else if t.flags.stash {
      var t' := t.(flags := t.flags.(stash := false, stashed := true));
      var item := Stashed(ip, p);
      if t.spec.stash {
        if p.ip == ip && GoodEntry(t.spec, p) {
          assert StashedAt(s.log + [item], |s.log|, |s.log| + 1, ip, t.spec);
        } else {
          WitnessLasts(s.log, |s.log|, item, ip, t.spec);
        }
      }
      LogItem(s, ip, t', item);
      if cur != ip {
        OtherStaysCovered(s, ip, t', item, cur, p);
      }
    } else {
      EmitKeeps(s, ip, cur, p);
    }
  }

  // Emitting a record and clearing it are two items.
  lemma EmitKeeps(s: State, ip: U64, cur: U64, p: Probe)
    requires StashInv(s) && ip in s.traces && cur in s.traces
    requires s.traces[ip].bufLen > 0 && !s.traces[ip].flags.stash
    requires Covered(s, ip, p) && Covered(s, cur, p)
    ensures StashInv(OutputTrace(s, ip, p)) && Covered(OutputTrace(s, ip, p), cur, p)
  {
    var t := s.traces[ip];
    var t' := t.(flags := t.flags.(stashed := false));
    var item := Emitted(ip, t');
    LogItem(s, ip, t', item);
    var mid := Put(s, ip, t').(log := s.log + [item]);
    WipeKeeps(mid, ip);
    TwoItems(s, ip, p);
    if cur != ip {
      OtherStaysCovered(s, ip, t', item, cur, p);
      OtherStaysCovered(mid, ip, Cleared(t'), Wiped(ip), cur, p);
    }
  }

  lemma TwoItems(s: State, ip: U64, p: Probe)
    requires ValidState(s) && ip in s.traces && s.traces[ip].bufLen > 0 && !s.traces[ip].flags.stash
    ensures var t' := s.traces[ip].(flags := s.traces[ip].flags.(stashed := false));
      OutputTrace(s, ip, p) == Wipe(Put(s, ip, t').(log := s.log + [Emitted(ip, t')]), ip)
  {
    var t' := s.traces[ip].(flags := s.traces[ip].flags.(stashed := false));
    assert s.log + [Emitted(ip, t'), Wiped(ip)] == s.log + [Emitted(ip, t')] + [Wiped(ip)];
    assert s.traces[ip := t'][ip := Cleared(t')] == s.traces[ip := Cleared(t')];
  }

  lemma {:induction false} ScanKeeps(s: State, ws: Words, i: nat, ip: U64, p: Probe)
    requires StashInv(s) && ip in s.traces && i <= |ws.at| && Covered(s, ip, p)
    ensures StashInv(ScanOver(s, ws, i, ip, p))
    decreases |ws.at| - i
  {
    match ScanNext(s, ws, i, p)
    case Finish => OutputTraceKeeps(s, ip, ip, p);
    case Skip => ScanKeeps(s, ws, i + 1, ip, p);
    case Stop =>
    case Pass =>
      OutputTraceKeeps(s, ws.at[i], ip, p);
      ScanKeeps(OutputTrace(s, ws.at[i], p), ws, i + 1, ip, p);
  }

  lemma OutputKeeps(s: State, ip: U64, p: Probe)
    requires StashInv(s) && ip in s.traces && p.task in s.stacks && Covered(s, ip, p)
    ensures StashInv(Output(s, ip, p))
  {
    if !EndsChain(s.traces[ip].spec, p.entry) {
      OutputTraceKeeps(s, ip, ip, p);
    } else if p.entry {
      CallersScan(s, ip, p, 0);
      ScanKeeps(s, Callers(s.stacks[p.task]), 0, ip, p);
    } else {
      CalleesScan(s, Callees(s.stacks[p.task], p), |s.stacks[p.task].ips|, 0, ip, p);
      ScanKeeps(s, Callees(s.stacks[p.task], p), 0, ip, p);
    }
  }

  // A record that passed the gate is freshly cleared, except at a return of a stash-mode
  // function, where it holds the stashed data.
  lemma GetTraceKeeps(s: State, p: Probe)
    requires StashInv(s)
    ensures var g := GetTrace(s, p);
      && StashInv(g.s)
      && (g.Open? && p.entry ==>
            var t := g.s.traces[g.ip];
            g.ip == p.ip && t.data == ZERO_DATA && t.bufLen == 0 && (t.spec.stash ==> t.flags.stash))
      && (g.Open? && !p.entry && g.s.traces[g.ip].spec.stash ==> g.s.traces[g.ip].flags.stashed)
  {
    var step := AtStack(s, p);
    var s1 := s.(stacks := s.stacks[p.task := step.stack]);
    assert StashInv(s1);
    if !step.outcome.Refused? && step.outcome.ip in s1.traces {
      var ip := step.outcome.ip;
      var t := s1.traces[ip];
      if p.entry || !t.spec.stash {
        WipeKeeps(s1, ip);
      }
    }
  }

  // A pass over a cleared record goes through and records something exactly when no evaluated
  // predicate fails and the arguments give some data.
  lemma {:induction false} FreshPass(t: Trace, p: Probe)
    requires ValidTrace(t) && ValidProbe(p) && t.data == ZERO_DATA && t.bufLen == 0
    ensures var a := Arguments(t, 0, p);
      !a.Rejected? && a.t.bufLen > 0 <==> PredicatesHold(t.spec, p, MAX_TRACES) && |Chunks(t.spec, p, MAX_TRACES)| > 0
  {
    assert Tiles(t, p, 0) && PredicatesHold(t.spec, p, 0);
    PassTiles(t, 0, p);
    assert |Chunks(t.spec, p, MAX_TRACES)| >= |Chunks(t.spec, p, MAX_TRACES - 1)|;
  }

  lemma {:induction false} PassIsGood(t: Trace, p: Probe)
    requires ValidTrace(t) && ValidProbe(p) && p.entry
    requires t.data == ZERO_DATA && t.bufLen == 0
    requires t.spec.filterPid == 0 || t.spec.filterPid == p.pid
    ensures var a := Arguments(t, 0, p);
      !a.Rejected? && a.t.bufLen > 0 ==> GoodEntry(t.spec, p)
  {
    FreshPass(t, p);
  }

  lemma {:induction false} RecordKeeps(s: State, ip: U64, p: Probe)
    requires StashInv(s) && ValidProbe(p) && ip in s.traces && p.task in s.stacks
    requires p.entry ==>
      var t := s.traces[ip];
      ip == p.ip && t.data == ZERO_DATA && t.bufLen == 0 && (t.spec.stash ==> t.flags.stash)
    requires !p.entry && s.traces[ip].spec.stash ==> s.traces[ip].flags.stashed
    ensures StashInv(Record(s, ip, p))
  {
    var t := s.traces[ip];
    if t.spec.filterPid == 0 || t.spec.filterPid == p.pid {
      var t' := Stamped(t, p);
      var a := Arguments(t', 0, p);
      var s' := Put(s, ip, a.t);
      PutKeeps(s, ip, a.t);
      if a.Rejected? {
        WipeKeeps(s', ip);
      } else {
        if p.entry {
          PassIsGood(t', p);
        }
        assert Covered(s', ip, p);
        OutputKeeps(s', ip, p);
      }
    }
  }

  lemma FireKeeps(s: State, p: Probe)
    requires StashInv(s) && ValidProbe(p)
    ensures StashInv(Fire(s, p))
  {
    GetTraceKeeps(s, p);
    var g := GetTrace(s, p);
    if g.Open? {
      RecordKeeps(g.s, g.ip, p);
    }
  }

  lemma {:induction false} RunKeepsStash(s: State, ps: seq<Probe>)
    requires StashInv(s) && forall i :: 0 <= i < |ps| ==> ValidProbe(ps[i])
    ensures StashInv(FireAll(s, ps))
    decreases |ps|
  {
    if ps != [] {
      FireKeeps(s, ps[0]);
      RunKeepsStash(Fire(s, ps[0]), ps[1..]);
    }
  }

  // The program starts with no stacks, cleared records, and nothing logged.
  predicate Loaded(s: State) {
    && s.stacks == map[] && s.log == []
    && forall ip :: ip in s.traces ==> ValidTrace(s.traces[ip]) && s.traces[ip] == Cleared(s.traces[ip])
  }

  // Stash-mode safety: in every run, an event of a function whose flags have STASH is emitted
  // only after an entry of it that passed the pid filter and all its entry predicates that could be
  // evaluated and recorded data, with no clearing in between; and STASHED marks such an entry in
  // every reachable state.
  lemma StashSafety(s: State, ps: seq<Probe>)
    requires Loaded(s) && forall i :: 0 <= i < |ps| ==> ValidProbe(ps[i])
    ensures var r := FireAll(s, ps);
      && (forall k :: 0 <= k < |r.log| && r.log[k].Emitted? && r.log[k].trace.spec.stash ==>
            Witnessed(r.log, k, r.log[k].ip, r.log[k].trace.spec))
      && (forall ip :: ip in r.traces && r.traces[ip].spec.stash && r.traces[ip].flags.stashed ==>
            Witnessed(r.log, |r.log|, ip, r.traces[ip].spec))
  {
    RunKeepsStash(s, ps);
  }

  // An argument's predicate is not tested when the pointer that it is about cannot be read.
  ghost predicate AllTested(spec: Spec, p: Probe)
    requires |spec.values| == MAX_TRACES && ValidProbe(p)
  {
    forall i :: 0 <= i < MAX_TRACES && Selected(spec.values[i], p.entry) && HasPredicate(spec.values[i].cmp) ==>
      Readable(spec.values[i], p.inputs[i])
  }

  ghost predicate AllPassed(spec: Spec, p: Probe)
    requires |spec.values| == MAX_TRACES && ValidProbe(p)
  {
    forall i :: 0 <= i < MAX_TRACES && Selected(spec.values[i], p.entry) && HasPredicate(spec.values[i].cmp) ==>
      Readable(spec.values[i], p.inputs[i]) && Holds(spec.values[i].cmp, Raw(spec.values[i], p.inputs[i], 0))
  }

  // The entries that witness what was emitted, or what is marked STASHED, passed all their
  // predicates exactly when all were tested.
  lemma StashPassedExactly(s: State, ps: seq<Probe>)
    requires Loaded(s) && forall i :: 0 <= i < |ps| ==> ValidProbe(ps[i])
    ensures var r := FireAll(s, ps);
      && (forall k :: 0 <= k < |r.log| && r.log[k].Emitted? && r.log[k].trace.spec.stash ==>
            WitnessPasses(r.log, k, r.log[k].ip, r.log[k].trace.spec))
      && (forall ip :: ip in r.traces && r.traces[ip].spec.stash && r.traces[ip].flags.stashed ==>
            WitnessPasses(r.log, |r.log|, ip, r.traces[ip].spec))
  {
    StashSafety(s, ps);
    var r := FireAll(s, ps);
    forall n: nat, ip, spec | Witnessed(r.log, n, ip, spec)
      ensures WitnessPasses(r.log, n, ip, spec)
    {
    }
  }

  ghost predicate WitnessPasses(log: seq<Item>, n: nat, ip: U64, spec: Spec) {
    && Witnessed(log, n, ip, spec)
    && forall j: nat :: StashedAt(log, j, n, ip, spec) ==>
         (AllPassed(spec, log[j].probe) <==> AllTested(spec, log[j].probe))
  }

  // An entry that the gate lets into a record marked STASH, not at the end of a chain, is stashed if
  // and only if it is a good one.
  lemma {:induction false} StashesExactly(s: State, p: Probe)
    requires ValidState(s) && ValidProbe(p) && p.entry && GetTrace(s, p).Open?
    requires var g := GetTrace(s, p);
      var t := g.s.traces[g.ip]; t.flags.stash && (t.spec.prevIp == 0 || t.spec.nextIp != 0)
    ensures var g, r := GetTrace(s, p), Fire(s, p);
      GoodEntry(g.s.traces[g.ip].spec, p) <==> r.log == g.s.log + [Stashed(g.ip, p)]
  {
    var g := GetTrace(s, p);
    var t := Stamped(g.s.traces[g.ip], p);
    assert t.data == ZERO_DATA && t.bufLen == 0;
    FreshPass(t, p);
    var log, r := g.s.log, Fire(s, p);
    var a := Arguments(t, 0, p);
    if t.spec.filterPid != 0 && t.spec.filterPid != p.pid {
      assert r.log == log;
    } else if a.Rejected? || a.t.bufLen == 0 {
      assert r.log == log + [Wiped(g.ip)];
      assert r.log[|log|] == Wiped(g.ip);
    } else {
      assert r.log == log + [Stashed(g.ip, p)];
    }
  }

  lemma {:induction false} ChunksHold(spec: Spec, p: Probe, i: nat, n: nat)
    requires |spec.values| == MAX_TRACES && ValidProbe(p) && i < n <= MAX_TRACES
    ensures |Chunks(spec, p, n)| >= |Chunk(spec, p, i)|
  {
    if i < n - 1 {
      ChunksHold(spec, p, i, n - 1);
    }
  }

  // The pointer of argument i cannot be read, and no other argument has a predicate.
  ghost predicate OnlyUntested(spec: Spec, p: Probe, i: nat)
    requires |spec.values| == MAX_TRACES && ValidProbe(p)
  {
    && i < MAX_TRACES && Selected(spec.values[i], p.entry) && !Readable(spec.values[i], p.inputs[i])
    && forall j :: 0 <= j < MAX_TRACES ==> (HasPredicate(spec.values[j].cmp) <==> j == i)
  }

  // Such an entry is good as soon as any argument is copied, though it passed no predicate.
  lemma UntestedIsGood(spec: Spec, p: Probe, i: nat, j: nat)
    requires |spec.values| == MAX_TRACES && ValidProbe(p) && p.entry && OnlyUntested(spec, p, i)
    requires j < MAX_TRACES && Copied(spec.values[j], p.entry, p.inputs[j]) && spec.values[j].size > 0
    requires spec.filterPid == 0 || spec.filterPid == p.pid
    ensures GoodEntry(spec, p) && !AllPassed(spec, p)
  {
    ChunksHold(spec, p, j, MAX_TRACES);
    assert HasPredicate(spec.values[i].cmp);
  }

  const NO_COMPARE := Compare(false, false, false, false, 0)
  const NOT_ASKED := Value(0, 0, 0, false, false, NO_COMPARE)

  // One whose pointer faults with -EFAULT.
  lemma UntestedEntry() returns (spec: Spec, p: Probe)
    ensures |spec.values| == MAX_TRACES && ValidProbe(p) && OnlyUntested(spec, p, 0)
    ensures p.inputs[0].pointer == Fault(-14) && GoodEntry(spec, p) && !AllPassed(spec, p)
  {
    var asked := Value(0, 8, 1, true, true, NO_COMPARE.(eq := true, against := 1));
    var shown := Value(1, 8, 1, false, false, NO_COMPARE);
    spec := Spec(0, 0, 0, true, [asked, shown, NOT_ASKED, NOT_ASKED, NOT_ASKED, NOT_ASKED]);
    var zeros: seq<U8> := seq(MAX_TRACE_DATA, _ => 0);
    var bad, good := Input(0, Fault(-14), 0, CopyFault(-14)), Input(0, Got(0), 0, Bytes(zeros));
    p := Probe(true, 1, 1, 1, 0, 0, [bad, good, good, good, good, good]);
    UntestedIsGood(spec, p, 0, 1);
  }

  // ---------------------------------------------------------------------------
  // The data buffer
  // ---------------------------------------------------------------------------

  // In the records and in everything emitted, slices without an error are recorded and apart.
  ghost predicate SliceInv(s: State) {
    && ValidState(s)
    && (forall ip :: ip in s.traces ==> Sliced(s.traces[ip]))
    && (forall k :: 0 <= k < |s.log| && s.log[k].Emitted? ==>
          ValidTrace(s.log[k].trace) && Sliced(s.log[k].trace) && s.log[k].trace.bufLen > 0)
  }

  lemma SameSlices(t: Trace, r: Trace)
    requires ValidTrace(t) && Sliced(t) && r.data == t.data && r.bufLen == t.bufLen && ValidTrace(r)
    ensures Sliced(r)
  {
    forall i | 0 <= i < MAX_TRACES
      ensures Recorded(r.data[i], r.bufLen)
    {
      assert Recorded(t.data[i], t.bufLen);
    }
    forall i, j | 0 <= i < j < MAX_TRACES
      ensures Apart(r.data[i], r.data[j])
    {
      assert Apart(t.data[i], t.data[j]);
    }
  }

  lemma PutSlices(s: State, ip: U64, t: Trace)
    requires SliceInv(s) && ValidTrace(t) && Sliced(t)
    ensures SliceInv(Put(s, ip, t))
  {
  }

  // What happens to a record is no event, or one that is sliced and not empty.
  ghost predicate SlicedItem(item: Item) {
    item.Emitted? ==> ValidTrace(item.trace) && Sliced(item.trace) && item.trace.bufLen > 0
  }

  lemma LogSlices(s: State, items: seq<Item>)
    requires SliceInv(s) && forall i :: 0 <= i < |items| ==> SlicedItem(items[i])
    ensures SliceInv(s.(log := s.log + items))
  {
    var log := s.log + items;
    forall k | 0 <= k < |log| && log[k].Emitted?
      ensures ValidTrace(log[k].trace) && Sliced(log[k].trace) && log[k].trace.bufLen > 0
    {
      assert k >= |s.log| ==> SlicedItem(items[k - |s.log|]);
    }
  }

  lemma OutputTraceSlices(s: State, ip: U64, p: Probe)
    requires SliceInv(s) && ip in s.traces
    ensures SliceInv(OutputTrace(s, ip, p))
  {
    var t := s.traces[ip];
    SameSlices(t, t.(flags := t.flags.(stashed := false)));
    SameSlices(t, t.(flags := t.flags.(stash := false, stashed := true)));
    ClearedIsSliced(t);
    PutSlices(s, ip, Outputted(t));
    LogSlices(Put(s, ip, Outputted(t)), OutputItems(ip, t, p));
  }

  lemma WipeSlices(s: State, ip: U64)
    requires SliceInv(s) && ip in s.traces
    ensures SliceInv(Wipe(s, ip))
  {
    ClearedIsSliced(s.traces[ip]);
    PutSlices(s, ip, Cleared(s.traces[ip]));
    LogSlices(Put(s, ip, Cleared(s.traces[ip])), [Wiped(ip)]);
  }

  lemma {:induction false} ScanSlices(s: State, ws: Words, i: nat, ip: U64, p: Probe)
    requires SliceInv(s) && ip in s.traces && i <= |ws.at|
    ensures SliceInv(ScanOver(s, ws, i, ip, p))
    decreases |ws.at| - i
  {
    match ScanNext(s, ws, i, p)
    case Finish => OutputTraceSlices(s, ip, p);
    case Skip => ScanSlices(s, ws, i + 1, ip, p);
    case Stop =>
    case Pass =>
      OutputTraceSlices(s, ws.at[i], p);
      ScanSlices(OutputTrace(s, ws.at[i], p), ws, i + 1, ip, p);
  }

  lemma OutputSlices(s: State, ip: U64, p: Probe)
    requires SliceInv(s) && ip in s.traces && p.task in s.stacks
    ensures SliceInv(Output(s, ip, p))
  {
    if !EndsChain(s.traces[ip].spec, p.entry) {
      OutputTraceSlices(s, ip, p);
    } else if p.entry {
      CallersScan(s, ip, p, 0);
      ScanSlices(s, Callers(s.stacks[p.task]), 0, ip, p);
    } else {
      CalleesScan(s, Callees(s.stacks[p.task], p), |s.stacks[p.task].ips|, 0, ip, p);
      ScanSlices(s, Callees(s.stacks[p.task], p), 0, ip, p);
    }
  }

  lemma {:induction false} FireSlices(s: State, p: Probe)
    requires SliceInv(s) && ValidProbe(p)
    ensures SliceInv(Fire(s, p))
  {
    var g := GetTrace(s, p);
    GetTraceSlices(s, p);
    if g.Open? {
      RecordSlices(g.s, g.ip, p);
    }
  }

  lemma {:induction false} RecordSlices(s: State, ip: U64, p: Probe)
    requires SliceInv(s) && ValidProbe(p) && ip in s.traces && p.task in s.stacks
    ensures SliceInv(Record(s, ip, p))
  {
    FilledSlices(s.traces[ip], p);
    var t := Arguments(Stamped(s.traces[ip], p), 0, p).t;
    PutSlices(s, ip, t);
    WipeSlices(Put(s, ip, t), ip);
    OutputSlices(Put(s, ip, t), ip, p);
  }

  lemma {:induction false} FilledSlices(t: Trace, p: Probe)
    requires ValidTrace(t) && Sliced(t) && ValidProbe(p)
    ensures Sliced(Arguments(Stamped(t, p), 0, p).t)
  {
    SameSlices(t, Stamped(t, p));
    PassKeepsData(Stamped(t, p), 0, p);
  }

  lemma GetTraceSlices(s: State, p: Probe)
    requires SliceInv(s)
    ensures SliceInv(GetTrace(s, p).s)
  {
    var step := AtStack(s, p);
    var s1 := s.(stacks := s.stacks[p.task := step.stack]);
    assert SliceInv(s1);
    if !step.outcome.Refused? && step.outcome.ip in s.traces {
      var ip := step.outcome.ip;
      WipeSlices(s1, ip);
      var g := GetTrace(s, p);
      if g.Open? {
        var s2 := if !p.entry && s1.traces[ip].spec.stash then s1 else Wipe(s1, ip);
        SameSlices(s2.traces[ip], g.s.traces[ip]);
        PutSlices(s2, ip, g.s.traces[ip]);
      }
    }
  }

  lemma LoadedIsSliced(s: State)
    requires Loaded(s)
    ensures SliceInv(s)
  {
    forall ip | ip in s.traces
      ensures Sliced(s.traces[ip])
    {
      ClearedIsSliced(s.traces[ip]);
    }
  }

  // In every reachable state, also after returns that append to stashed data, the recorded
  // length stays below MAX_TRACE_BUF, every slice without an error lies inside it, and no two
  // such slices overlap; the same holds of every event emitted, and no event is empty.
  lemma {:induction false} BufferSafety(s: State, ps: seq<Probe>)
    requires Loaded(s) && forall i :: 0 <= i < |ps| ==> ValidProbe(ps[i])
    ensures SliceInv(FireAll(s, ps))
  {
    LoadedIsSliced(s);
    RunKeepsSlices(s, ps);
  }

  lemma {:induction false} RunKeepsSlices(s: State, ps: seq<Probe>)
    requires SliceInv(s) && forall i :: 0 <= i < |ps| ==> ValidProbe(ps[i])
    ensures SliceInv(FireAll(s, ps))
    decreases |ps|
  {
    if ps != [] {
      FireSlices(s, ps[0]);
      RunKeepsSlices(Fire(s, ps[0]), ps[1..]);
    }
  }

  // ---------------------------------------------------------------------------
  // Stack mode
  // ---------------------------------------------------------------------------

  function TaskEvents(ps: seq<Probe>): (es: seq<TaskEvent>)
    ensures |es| == |ps|
  {
    seq(|ps|, i requires 0 <= i < |ps| => TaskEvent(ps[i].task, StackEventOf(ps[i])))
  }

  lemma FireMovesStack(s: State, p: Probe)
    requires ValidState(s) && ValidProbe(p)
    ensures Fire(s, p).stacks == s.stacks[p.task := AtStack(s, p).stack]
  {
  }

  lemma {:induction false} RunMovesStacks(s: State, ps: seq<Probe>)
    requires ValidState(s) && forall i :: 0 <= i < |ps| ==> ValidProbe(ps[i])
    ensures FireAll(s, ps).stacks == StacksAfter(s.stacks, TaskEvents(ps))
    decreases |ps|
  {
    if ps != [] {
      FireMovesStack(s, ps[0]);
      RunMovesStacks(Fire(s, ps[0]), ps[1..]);
      assert TaskEvents(ps)[1..] == TaskEvents(ps[1..]);
    }
  }

  lemma {:induction false} EventsAppend(a: seq<TaskEvent>, b: seq<TaskEvent>, task: U64)
    ensures EventsOf(a + b, task) == EventsOf(a, task) + EventsOf(b, task)
    decreases |a|
  {
    if a == [] {
      assert a + b == b;
    } else {
      AppendTail(a, b);
      EventsAppend(a[1..], b, task);
    }
  }

  // The k-th probe of a run learns what the calls of its own task say it should, whatever the
  // other tasks do, as long as its task's probes follow nested calls at most 15 deep.
  lemma ProbeLearnsTruth(s: State, ps: seq<Probe>, k: nat, c: Calls)
    requires ValidState(s) && s.stacks == map[] && forall i :: 0 <= i < |ps| ==> ValidProbe(ps[i])
    requires k < |ps| && Nesting(c) <= DEEPEST
    requires EventsOf(TaskEvents(ps), ps[k].task) <= Probes(c)
    ensures var j := |EventsOf(TaskEvents(ps[..k]), ps[k].task)|;
      j < |Truth(c, 0)| && AtStack(FireAll(s, ps[..k]), ps[k]).outcome == Truth(c, 0)[j]
  {
    var task := ps[k].task;
    var before := EventsOf(TaskEvents(ps[..k]), task);
    var j := |before|;
    var es := Probes(c);
    assert TaskEvents(ps) == TaskEvents(ps[..k]) + ([TaskEvents(ps)[k]] + TaskEvents(ps[k + 1..]));
    EventsAppend(TaskEvents(ps[..k]), [TaskEvents(ps)[k]] + TaskEvents(ps[k + 1..]), task);
    var rest := [TaskEvents(ps)[k]] + TaskEvents(ps[k + 1..]);
    assert EventsOf(rest, task)[0] == StackEventOf(ps[k]);
    assert EventsOf(TaskEvents(ps), task)[..j] == before;
    assert EventsOf(TaskEvents(ps), task)[j] == StackEventOf(ps[k]);
    assert es[..j] == before && es[j] == StackEventOf(ps[k]);
    RunMovesStacks(s, ps[..k]);
    TasksDoNotInterfere(map[], TaskEvents(ps[..k]), task);
    CutShort(EMPTY_STACK, es, j);
    StackExact(c);
  }

  // In stack mode the gate lets an entry through exactly when its immediate traced caller is the
  // previous function of the chain, and a return exactly when the last traced function it
  // called is the next one; the ends of the chain have no such condition.
  lemma GateTestsRealNeighbour(s: State, ps: seq<Probe>, k: nat, c: Calls)
    requires ValidState(s) && s.stacks == map[] && forall i :: 0 <= i < |ps| ==> ValidProbe(ps[i])
    requires k < |ps| && Nesting(c) <= DEEPEST
    requires EventsOf(TaskEvents(ps), ps[k].task) <= Probes(c)
    ensures var j := |EventsOf(TaskEvents(ps[..k]), ps[k].task)|;
      var at := FireAll(s, ps[..k]);
      j < |Truth(c, 0)| && Truth(c, 0)[j] != Refused &&
      var ip, neighbour := Truth(c, 0)[j].ip, Truth(c, 0)[j].lastIp;
      && (GetTrace(at, ps[k]).Open? <==>
            && ip in at.traces
            && var spec := at.traces[ip].spec;
               (if ps[k].entry then spec.prevIp == 0 || spec.prevIp == neighbour
                else (spec.nextIp == 0 || spec.nextIp == neighbour)
                     && (spec.stash ==> at.traces[ip].flags.stashed)))
      && (GetTrace(at, ps[k]).Open? ==> GetTrace(at, ps[k]).ip == ip)
  {
    ProbeLearnsTruth(s, ps, k, c);
    TruthNeverRefuses(c, 0);
    var j := |EventsOf(TaskEvents(ps[..k]), ps[k].task)|;
    assert Truth(c, 0)[j] in Truth(c, 0);
  }

  ghost predicate SameSpecs(s: State, r: State) {
    s.traces.Keys == r.traces.Keys && forall ip :: ip in s.traces ==> r.traces[ip].spec == s.traces[ip].spec
  }

  lemma {:induction false} ScanSpecs(s: State, ws: Words, i: nat, ip: U64, p: Probe)
    requires ValidState(s) && ip in s.traces && i <= |ws.at|
    ensures SameSpecs(s, ScanOver(s, ws, i, ip, p))
    decreases |ws.at| - i
  {
    match ScanNext(s, ws, i, p)
    case Finish => OutputTraceSpecs(s, ip, p);
    case Skip => ScanSpecs(s, ws, i + 1, ip, p);
    case Stop =>
    case Pass =>
      var s' := OutputTrace(s, ws.at[i], p);
      OutputTraceSpecs(s, ws.at[i], p);
      ScanSpecs(s', ws, i + 1, ip, p);
      SpecsTransitive(s, s', ScanOver(s', ws, i + 1, ip, p));
  }

  lemma SpecsTransitive(s: State, s': State, r: State)
    requires SameSpecs(s, s') && SameSpecs(s', r)
    ensures SameSpecs(s, r)
  {
  }

  lemma OutputTraceSpecs(s: State, ip: U64, p: Probe)
    requires ValidState(s) && ip in s.traces
    ensures SameSpecs(s, OutputTrace(s, ip, p))
  {
  }

  lemma OutputSpecs(s: State, ip: U64, p: Probe)
    requires ValidState(s) && ip in s.traces && p.task in s.stacks
    ensures SameSpecs(s, Output(s, ip, p))
  {
    if !EndsChain(s.traces[ip].spec, p.entry) {
      OutputTraceSpecs(s, ip, p);
    } else if p.entry {
      CallersScan(s, ip, p, 0);
      ScanSpecs(s, Callers(s.stacks[p.task]), 0, ip, p);
    } else {
      CalleesScan(s, Callees(s.stacks[p.task], p), |s.stacks[p.task].ips|, 0, ip, p);
      ScanSpecs(s, Callees(s.stacks[p.task], p), 0, ip, p);
    }
  }

  lemma {:induction false} RecordSpecs(s: State, ip: U64, p: Probe)
    requires ValidState(s) && ValidProbe(p) && ip in s.traces && p.task in s.stacks
    ensures SameSpecs(s, Record(s, ip, p))
  {
    OutputSpecs(Put(s, ip, Arguments(Stamped(s.traces[ip], p), 0, p).t), ip, p);
  }

  lemma {:induction false} FireSpecs(s: State, p: Probe)
    requires ValidState(s) && ValidProbe(p)
    ensures SameSpecs(s, Fire(s, p))
  {
    var g := GetTrace(s, p);
    assert SameSpecs(s, g.s);
    if g.Open? {
      RecordSpecs(g.s, g.ip, p);
    }
  }

  // No run adds or removes a record, or changes what user space asked of it.
  lemma {:induction false} RunKeepsSpecs(s: State, ps: seq<Probe>)
    requires ValidState(s) && forall i :: 0 <= i < |ps| ==> ValidProbe(ps[i])
    ensures SameSpecs(s, FireAll(s, ps))
    decreases |ps|
  {
    if ps != [] {
      FireSpecs(s, ps[0]);
      RunKeepsSpecs(Fire(s, ps[0]), ps[1..]);
    }
  }
}
