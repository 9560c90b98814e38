// What a probe does with the record of its function, by the place of the function in a chain.
module KsnoopChain {
  import opened Machine
  import opened KsnoopStack
  import opened Ksnoop
  import opened KsnoopRun
  import opened KsnoopScan
  import opened KsnoopEmits
  import opened KsnoopSafety

  // At an entry a later function of the chain is still to come, at a return an earlier one.
  predicate MidChain(spec: Spec, entry: bool) {
    if entry then spec.nextIp != 0 else spec.prevIp != 0
  }

  // The function next to it on the stack is the one the record names, if it names one.
  predicate NeighbourMatches(spec: Spec, entry: bool, lastIp: U64) {
    (if entry then spec.prevIp else spec.nextIp) in {0, lastIp}
  }

  // The probe finds the record of its function, and the word next to it on the stack.
  predicate Finds(s: State, p: Probe, ip: U64, lastIp: U64)
    requires ValidState(s)
  {
    && AtStack(s, p).outcome == (if p.entry then Entered(ip, lastIp) else Left(ip, lastIp))
    && ip in s.traces
  }

  // What a pass over a cleared record recorded, and for whom.
  ghost predicate RecordedBy(t: Trace, spec: Spec, p: Probe)
    requires |spec.values| == MAX_TRACES && ValidProbe(p)
  {
    && t.spec == spec && t.task == p.task && t.pid == p.pid && t.time == p.time
    && t.flags.entry == p.entry && t.flags.ret == !p.entry && !t.flags.stash
    && 0 < t.bufLen < |t.buf|
    && (t.buf[..t.bufLen] == Chunks(spec, p, MAX_TRACES) || t.buf[..t.bufLen] == Chunks(spec, p, MAX_TRACES - 1))
  }

  // The record that the argument loop gets: cleared, and marked.
  function Opened(t: Trace, p: Probe, stash: bool): Trace
    requires ValidTrace(t)
  {
    Cleared(t).(flags := NO_FLAGS.(stash := stash, entry := p.entry, ret := !p.entry),
                task := p.task, pid := p.pid, time := p.time)
  }

  lemma {:induction false} PassOverOpened(t: Trace, p: Probe, stash: bool)
    requires ValidTrace(t) && ValidProbe(p)
    ensures var a := Arguments(Opened(t, p, stash), 0, p);
      && (t.spec.filterPid in {0, p.pid} ==> (!a.Rejected? && a.t.bufLen > 0 <==> GoodProbe(t.spec, p)))
      && (!a.Rejected? && a.t.bufLen > 0 ==> RecordedBy(a.t.(flags := a.t.flags.(stash := false)), t.spec, p))
  {
    var o := Opened(t, p, stash);
    FreshPass(o, p);
    PassKeepsStamp(o, 0, p);
    ClearedTiles(t, p);
    assert Tiles(o, p, 0) && PredicatesHold(o.spec, p, 0);
    PassTiles(o, 0, p);
  }

  // The argument loop touches data, length and buffer only.
  lemma {:induction false} PassKeepsStamp(t: Trace, i: nat, p: Probe)
    requires ValidTrace(t) && i <= MAX_TRACES && ValidProbe(p)
    ensures var r := Arguments(t, i, p).t; r == t.(data := r.data, bufLen := r.bufLen, buf := r.buf)
    decreases MAX_TRACES - i
  {
    if i < MAX_TRACES {
      var r := Argument(t, i, p.entry, p.inputs[i]);
      assert r.t == t.(data := r.t.data, bufLen := r.t.bufLen, buf := r.t.buf);
      if r.Next? {
        PassKeepsStamp(r.t, i + 1, p);
      }
    }
  }

  // ---------------------------------------------------------------------------
  // Probes that begin with a cleared record
  // ---------------------------------------------------------------------------

  // What a probe logs of its own record, when that is not the end of a chain.
  ghost predicate Logs(s: State, r: State, ip: U64, items: seq<Item>) {
    r.log == s.log + [Wiped(ip)] + items
  }

  // What the gate does with the record: it clears it, and lets the probe in when its neighbour
  // matches.
  ghost predicate Gated(s: State, g: Gate, p: Probe, ip: U64, lastIp: U64, stash: bool)
    requires ip in s.traces && ValidTrace(s.traces[ip])
  {
    var t := s.traces[ip];
    && (g.Open? <==> NeighbourMatches(t.spec, p.entry, lastIp))
    && g.s.log == s.log + [Wiped(ip)]
    && ip in g.s.traces && g.s.traces == s.traces[ip := g.s.traces[ip]]
    && (g.Closed? ==> g.s.traces[ip] == Cleared(t))
    && (g.Open? ==> g.ip == ip && p.task in g.s.stacks && Stamped(g.s.traces[ip], p) == Opened(t, p, stash))
  }

  lemma {:induction false} FireOpens(s: State, p: Probe, ip: U64, lastIp: U64, stash: bool)
    requires ValidState(s) && ValidProbe(p) && Finds(s, p, ip, lastIp)
    requires var spec := s.traces[ip].spec;
      (p.entry || !spec.stash) && (stash <==> MidChain(spec, p.entry) || (p.entry && spec.stash))
    ensures Gated(s, GetTrace(s, p), p, ip, lastIp, stash)
  {
  }

  // In the middle of a chain an entry, and a return outside stash mode, keeps its data for later
  // exactly when its neighbour matches and it is a good one; it emits nothing.
  lemma {:induction false} MidChainStashes(s: State, p: Probe, ip: U64, lastIp: U64)
    requires ValidState(s) && ValidProbe(p) && Finds(s, p, ip, lastIp)
    requires MidChain(s.traces[ip].spec, p.entry) && (p.entry || !s.traces[ip].spec.stash)
    ensures Keeps(s, Fire(s, p), p, ip, lastIp)
  {
    FireOpens(s, p, ip, lastIp, true);
    var g := GetTrace(s, p);
    if g.Open? {
      MidRecord(g.s, p, ip, s.traces[ip]);
    }
    MidKeeps(s, g, Fire(s, p), p, ip, lastIp);
  }

  // r keeps data exactly when the neighbour matches and the probe is a good one, and all other
  // records.
  ghost predicate Keeps(s: State, r: State, p: Probe, ip: U64, lastIp: U64)
    requires ip in s.traces && ValidTrace(s.traces[ip]) && ValidProbe(p)
  {
    var spec := s.traces[ip].spec;
    var good := NeighbourMatches(spec, p.entry, lastIp) && GoodProbe(spec, p);
    && ip in r.traces && r.traces == s.traces[ip := r.traces[ip]]
    && (r.traces[ip].flags.stashed <==> good)
    && (good ==> RecordedBy(r.traces[ip], spec, p) && Logs(s, r, ip, [Stashed(ip, p)]))
    && (!good ==> Logs(s, r, ip, []) || Logs(s, r, ip, [Wiped(ip)]))
  }

  lemma {:induction false} MidKeeps(s: State, g: Gate, r: State, p: Probe, ip: U64, lastIp: U64)
    requires ip in s.traces && ValidTrace(s.traces[ip]) && ValidProbe(p)
    requires Gated(s, g, p, ip, lastIp, true) && (g.Closed? ==> r == g.s)
    requires g.Open? ==> MidResult(g.s, r, p, ip, s.traces[ip])
    ensures Keeps(s, r, p, ip, lastIp)
  {
    if g.Open? {
      MidGood(g.s, r, p, ip, s.traces[ip]);
      assert r.traces == s.traces[ip := r.traces[ip]];
    }
    assert s.log + [Wiped(ip)] + [] == s.log + [Wiped(ip)];
  }

  // What a probe in the middle of a chain makes of an open record.
  ghost predicate MidResult(s: State, r: State, p: Probe, ip: U64, t: Trace)
    requires ValidProbe(p) && ValidTrace(t)
  {
    var a := Arguments(Opened(t, p, true), 0, p);
    && ip in s.traces && ip in r.traces && r.traces == s.traces[ip := r.traces[ip]]
    && if t.spec.filterPid !in {0, p.pid} then r == s
       else if a.Rejected? || a.t.bufLen == 0 then r.log == s.log + [Wiped(ip)] && !r.traces[ip].flags.stashed
       else
         && r.log == s.log + [Stashed(ip, p)]
         && r.traces[ip] == a.t.(flags := a.t.flags.(stash := false, stashed := true))
  }

  lemma {:induction false} MidRecord(s: State, p: Probe, ip: U64, t: Trace)
    requires ValidState(s) && ValidProbe(p) && ip in s.traces && p.task in s.stacks && ValidTrace(t)
    requires MidChain(t.spec, p.entry) && Stamped(s.traces[ip], p) == Opened(t, p, true)
    ensures MidResult(s, Record(s, ip, p), p, ip, t)
  {
    PassKeepsStamp(Opened(t, p, true), 0, p);
  }

  lemma {:induction false} MidGood(s: State, r: State, p: Probe, ip: U64, t: Trace)
    requires ValidProbe(p) && ValidTrace(t) && MidResult(s, r, p, ip, t)
    requires Stamped(s.traces[ip], p) == Opened(t, p, true)
    ensures r.traces[ip].flags.stashed <==> GoodProbe(t.spec, p)
    ensures GoodProbe(t.spec, p) ==> RecordedBy(r.traces[ip], t.spec, p) && r.log == s.log + [Stashed(ip, p)]
    ensures !GoodProbe(t.spec, p) ==> r.log == s.log || r.log == s.log + [Wiped(ip)]
  {
    PassOverOpened(t, p, true);
  }

  // Outside chains and stash mode a good probe emits its data at once, and any other none.
  lemma {:induction false} PlainEmits(s: State, p: Probe, ip: U64, lastIp: U64)
    requires ValidState(s) && ValidProbe(p) && Finds(s, p, ip, lastIp)
    requires var spec := s.traces[ip].spec; spec.prevIp == 0 && spec.nextIp == 0 && !spec.stash
    ensures Emits(s, Fire(s, p), p, ip, s.traces[ip].spec)
  {
    FireOpens(s, p, ip, lastIp, false);
    var g := GetTrace(s, p);
    PlainRecord(g.s, p, ip, s.traces[ip]);
    PlainGood(s, g.s, Fire(s, p), p, ip, s.traces[ip]);
  }

  ghost predicate Emits(s: State, r: State, p: Probe, ip: U64, spec: Spec)
    requires |spec.values| == MAX_TRACES && ValidProbe(p)
  {
    if GoodProbe(spec, p) then
      exists t :: RecordedBy(t, spec, p) && !t.flags.stashed && Logs(s, r, ip, [Emitted(ip, t), Wiped(ip)])
    else Logs(s, r, ip, []) || Logs(s, r, ip, [Wiped(ip)])
  }

  ghost predicate PlainResult(s: State, r: State, p: Probe, ip: U64, t: Trace)
    requires ValidProbe(p) && ValidTrace(t)
  {
    var a := Arguments(Opened(t, p, false), 0, p);
    && !a.t.flags.stash && !a.t.flags.stashed
    && r.log == s.log + if t.spec.filterPid !in {0, p.pid} then []
                        else if a.Rejected? || a.t.bufLen == 0 then [Wiped(ip)]
                        else [Emitted(ip, a.t), Wiped(ip)]
  }

  lemma {:induction false} PlainGood(s: State, gated: State, r: State, p: Probe, ip: U64, t: Trace)
    requires ValidProbe(p) && ValidTrace(t) && PlainResult(gated, r, p, ip, t) && gated.log == s.log + [Wiped(ip)]
    ensures Emits(s, r, p, ip, t.spec)
  {
    PassOverOpened(t, p, false);
    if GoodProbe(t.spec, p) {
      var e := Arguments(Opened(t, p, false), 0, p).t;
      assert e.(flags := e.flags.(stash := false)) == e;
      assert RecordedBy(e, t.spec, p) && !e.flags.stashed && Logs(s, r, ip, [Emitted(ip, e), Wiped(ip)]);
    }
  }

  lemma {:induction false} PlainRecord(s: State, p: Probe, ip: U64, t: Trace)
    requires ValidState(s) && ValidProbe(p) && ip in s.traces && p.task in s.stacks && ValidTrace(t)
    requires t.spec.prevIp == 0 && t.spec.nextIp == 0 && Stamped(s.traces[ip], p) == Opened(t, p, false)
    ensures PlainResult(s, Record(s, ip, p), p, ip, t)
  {
    PassKeepsStamp(Opened(t, p, false), 0, p);
    var a := Arguments(Opened(t, p, false), 0, p);
    assert a.t.(flags := a.t.flags.(stashed := false)) == a.t;
    assert s.log + [] == s.log;
  }

  // ---------------------------------------------------------------------------
  // Returns in stash mode append to what the entry stashed
  // ---------------------------------------------------------------------------

  // In every reachable state a record marked STASHED is not empty, and marked STASH besides only in
  // the middle of a chain.
  predicate StashedWell(t: Trace) {
    t.flags.stashed ==> t.bufLen > 0 && (t.spec.prevIp == 0 ==> !t.flags.stash)
  }

  // The record that the argument loop of such a return gets.
  function Reopened(t: Trace, p: Probe, stash: bool): Trace {
    t.(flags := t.flags.(stash := t.flags.stash || stash, entry := p.entry, ret := !p.entry),
       task := p.task, pid := p.pid, time := p.time)
  }

  // Without stashed data nothing happens. With it, a return outside chains emits it together with
  // its own, unless a test fails, which drops both.
  lemma {:induction false} StashReturns(s: State, p: Probe, ip: U64, lastIp: U64)
    requires ValidState(s) && ValidProbe(p) && Finds(s, p, ip, lastIp) && !p.entry
    requires var t := s.traces[ip];
      t.spec.stash && t.spec.prevIp == 0 && t.spec.nextIp == 0 && StashedWell(t)
    ensures var r, t := Fire(s, p), s.traces[ip];
      var a := Arguments(Reopened(t, p, false), 0, p);
      && t.buf[..t.bufLen] <= a.t.buf[..a.t.bufLen]
      && r.log == s.log +
           if !t.flags.stashed || t.spec.filterPid !in {0, p.pid} then []
           else if a.Rejected? then [Wiped(ip)]
           else [Emitted(ip, a.t.(flags := a.t.flags.(stashed := false))), Wiped(ip)]
  {
    var t := s.traces[ip];
    PassKeepsStamp(Reopened(t, p, false), 0, p);
    PassKeepsData(Reopened(t, p, false), 0, p);
    assert s.log + [] == s.log;
  }

  // In the middle of a chain it keeps both for later.
  lemma {:induction false} MidChainReturns(s: State, p: Probe, ip: U64, lastIp: U64)
    requires ValidState(s) && ValidProbe(p) && Finds(s, p, ip, lastIp) && !p.entry
    requires var t := s.traces[ip]; t.spec.stash && t.spec.prevIp != 0 && StashedWell(t)
    ensures var r, t := Fire(s, p), s.traces[ip];
      var passed := t.flags.stashed && NeighbourMatches(t.spec, false, lastIp) && t.spec.filterPid in {0, p.pid};
      var a := Arguments(Reopened(t, p, true), 0, p);
      && ip in r.traces && (r.traces[ip].flags.stashed <==> t.flags.stashed && (passed ==> !a.Rejected?))
      && r.log == s.log + if !passed then [] else if a.Rejected? then [Wiped(ip)] else [Stashed(ip, p)]
  {
    var t := s.traces[ip];
    PassKeepsStamp(Reopened(t, p, true), 0, p);
    PassKeepsData(Reopened(t, p, true), 0, p);
    assert s.log + [] == s.log;
  }

  // ---------------------------------------------------------------------------
  // Over whole runs
  // ---------------------------------------------------------------------------

  ghost predicate StashedHaveData(s: State) {
    ValidState(s) && forall ip :: ip in s.traces ==> StashedWell(s.traces[ip])
  }

  lemma {:induction false} ScanHaveData(s: State, ws: Words, i: nat, ip: U64, p: Probe)
    requires StashedHaveData(s) && ip in s.traces && i <= |ws.at|
    ensures StashedHaveData(ScanOver(s, ws, i, ip, p))
    decreases |ws.at| - i
  {
    match ScanNext(s, ws, i, p)
    case Finish =>
    case Skip => ScanHaveData(s, ws, i + 1, ip, p);
    case Stop =>
    case Pass => ScanHaveData(OutputTrace(s, ws.at[i], p), ws, i + 1, ip, p);
  }

  lemma OutputHaveData(s: State, ip: U64, p: Probe)
    requires StashedHaveData(s) && ip in s.traces && p.task in s.stacks
    ensures StashedHaveData(Output(s, ip, p))
  {
    if !EndsChain(s.traces[ip].spec, p.entry) {
    } else if p.entry {
      CallersScan(s, ip, p, 0);
      ScanHaveData(s, Callers(s.stacks[p.task]), 0, ip, p);
    } else {
      CalleesScan(s, Callees(s.stacks[p.task], p), |s.stacks[p.task].ips|, 0, ip, p);
      ScanHaveData(s, Callees(s.stacks[p.task], p), 0, ip, p);
    }
  }

  lemma {:induction false} FireHaveData(s: State, p: Probe)
    requires StashedHaveData(s) && ValidProbe(p)
    ensures StashedHaveData(Fire(s, p))
  {
    var g := GetTrace(s, p);
    assert StashedHaveData(g.s);
    if g.Open? {
      RecordHaveData(g.s, g.ip, p);
    }
  }

  lemma {:induction false} RecordHaveData(s: State, ip: U64, p: Probe)
    requires StashedHaveData(s) && ValidProbe(p) && ip in s.traces && p.task in s.stacks
    ensures StashedHaveData(Record(s, ip, p))
  {
    var t := Stamped(s.traces[ip], p);
    PassKeepsStamp(t, 0, p);
    PassKeepsData(t, 0, p);
    var s' := Put(s, ip, Arguments(t, 0, p).t);
    assert StashedHaveData(s');
    OutputHaveData(s', ip, p);
  }

  lemma {:induction false} RunHaveData(s: State, ps: seq<Probe>)
    requires StashedHaveData(s) && forall i :: 0 <= i < |ps| ==> ValidProbe(ps[i])
    ensures StashedHaveData(FireAll(s, ps))
    decreases |ps|
  {
    if ps != [] {
      FireHaveData(s, ps[0]);
      RunHaveData(Fire(s, ps[0]), ps[1..]);
    }
  }

  lemma {:induction false} MidChainQuiet(s: State, p: Probe, ip: U64, lastIp: U64)
    requires StashedHaveData(s) && ValidProbe(p)
    requires Finds(s, p, ip, lastIp) && MidChain(s.traces[ip].spec, p.entry)
    ensures Quiet(s, Fire(s, p), p, ip, lastIp)
  {
    if p.entry || !s.traces[ip].spec.stash {
      MidChainStashes(s, p, ip, lastIp);
      KeepsQuietly(s, Fire(s, p), p, ip, lastIp);
    } else {
      MidChainReturns(s, p, ip, lastIp);
    }
  }

  lemma KeepsQuietly(s: State, r: State, p: Probe, ip: U64, lastIp: U64)
    requires ip in s.traces && ValidTrace(s.traces[ip]) && ValidProbe(p) && Keeps(s, r, p, ip, lastIp)
    requires p.entry || !s.traces[ip].spec.stash
    ensures Quiet(s, r, p, ip, lastIp)
  {
  }

  // From s to r nothing was emitted, and what is stashed was stashed by a good probe, or before.
  ghost predicate Quiet(s: State, r: State, p: Probe, ip: U64, lastIp: U64)
    requires ip in s.traces
  {
    var spec := s.traces[ip].spec;
    && s.log <= r.log && ip in r.traces
    && (forall k :: |s.log| <= k < |r.log| ==> !r.log[k].Emitted?)
    && (p.entry || !spec.stash ==>
          (r.traces[ip].flags.stashed <==> NeighbourMatches(spec, p.entry, lastIp) && GoodProbe(spec, p)))
    && (!p.entry && spec.stash && r.traces[ip].flags.stashed ==> s.traces[ip].flags.stashed)
  }

  // In every run no probe emits anything from the middle of a chain: an entry into a function after
  // which another one is named, or a return from one before which another one is named. What is
  // kept for later is kept because the probe was a good one, or the return of a stash-mode
  // function whose entry was.
  lemma {:induction false} MidChainEmitsNothing(s: State, ps: seq<Probe>, p: Probe, ip: U64, lastIp: U64)
    requires Loaded(s) && ValidProbe(p) && forall i :: 0 <= i < |ps| ==> ValidProbe(ps[i])
    requires Finds(FireAll(s, ps), p, ip, lastIp) && ip in s.traces && MidChain(s.traces[ip].spec, p.entry)
    ensures var before, r, spec := FireAll(s, ps), Fire(FireAll(s, ps), p), s.traces[ip].spec;
      && before.log <= r.log && ip in r.traces
      && (forall k :: |before.log| <= k < |r.log| ==> !r.log[k].Emitted?)
      && (p.entry || !spec.stash ==>
            (r.traces[ip].flags.stashed <==> NeighbourMatches(spec, p.entry, lastIp) && GoodProbe(spec, p)))
      && (!p.entry && spec.stash && r.traces[ip].flags.stashed ==> before.traces[ip].flags.stashed)
  {
    var before := FireAll(s, ps);
    RunKeepsSpecs(s, ps);
    RunHaveData(s, ps);
    MidChainQuiet(before, p, ip, lastIp);
  }

  // ---------------------------------------------------------------------------
  // A chain of calls from end to end
  // ---------------------------------------------------------------------------

  // The records of the functions at ips name each other, and ask for what specs says.
  ghost predicate IsChain(s: State, ips: seq<U64>, specs: seq<Spec>) {
    && 2 <= |ips| <= DEEPEST && |specs| == |ips|
    && (forall i :: 0 <= i < |ips| ==> ips[i] != 0 && ips[i] in s.traces && s.traces[ips[i]].spec == specs[i])
    && (forall i, j :: 0 <= i < j < |ips| ==> ips[i] != ips[j])
    && (forall i :: 0 <= i < |ips| ==>
          && specs[i].prevIp == (if i > 0 then ips[i - 1] else 0)
          && specs[i].nextIp == (if i + 1 < |ips| then ips[i + 1] else 0))
  }

  // A task enters them one from the other, and every entry is a good one.
  ghost predicate EntersChain(ps: seq<Probe>, ips: seq<U64>, specs: seq<Spec>, task: U64) {
    && |ps| == |ips| == |specs|
    && forall i :: 0 <= i < |ps| ==>
         ps[i].entry && ps[i].task == task && ps[i].ip == ips[i] && GoodProbe(specs[i], ps[i])
  }

  // The events of a log, each with its function.
  function Events(log: seq<Item>): (es: seq<Item>)
    ensures forall i :: 0 <= i < |es| ==> es[i].Emitted?
  {
    if log == [] then []
    else Events(log[..|log| - 1]) + if log[|log| - 1].Emitted? then [log[|log| - 1]] else []
  }

  lemma {:induction false} EventsAdd(a: seq<Item>, b: seq<Item>)
    ensures Events(a + b) == Events(a) + Events(b)
    decreases |b|
  {
    if b == [] {
      assert a + b == a;
    } else {
      var n := |b| - 1;
      assert (a + b)[..|a| + n] == a + b[..n];
      EventsAdd(a, b[..n]);
    }
  }

  ghost predicate OnStack(fs: FuncStack, ips: seq<U64>, k: nat)
    requires ValidStack(fs) && k <= |ips| <= DEEPEST
  {
    fs.depth == k && fs.ips[..k] == ips[..k]
  }

  lemma Pushes(fs: FuncStack, ips: seq<U64>, k: nat)
    requires ValidStack(fs) && k < |ips| <= DEEPEST && OnStack(fs, ips, k)
    ensures var step := Enter(fs, ips[k]);
      step.outcome == Entered(ips[k], if k > 0 then ips[k - 1] else 0) && OnStack(step.stack, ips, k + 1)
  {
    if k > 0 {
      assert fs.ips[k - 1] == fs.ips[..k][k - 1] == ips[..k][k - 1];
    }
    var fs' := Enter(fs, ips[k]).stack;
    assert fs'.ips[..k + 1] == fs.ips[..k] + [ips[k]] == ips[..k + 1];
  }

  ghost predicate IsStashed(s: State, ip: U64, spec: Spec, p: Probe) {
    && ip in s.traces && s.traces[ip].flags.stashed
    && ValidProbe(p) && |spec.values| == MAX_TRACES && RecordedBy(s.traces[ip], spec, p)
  }

  ghost predicate FirstStashed(s: State, ips: seq<U64>, specs: seq<Spec>, ps: seq<Probe>, k: nat)
    requires k <= |ips| == |specs| == |ps|
  {
    forall i :: 0 <= i < k ==> IsStashed(s, ips[i], specs[i], ps[i])
  }

  // The task stands in the first k functions, and their data is stashed.
  ghost predicate StandsIn(s: State, ips: seq<U64>, specs: seq<Spec>, ps: seq<Probe>, task: U64, k: nat) {
    && ValidState(s) && IsChain(s, ips, specs) && EntersChain(ps, ips, specs, task) && k <= |ips|
    && OnStack(StackOf(s.stacks, task), ips, k)
    && FirstStashed(s, ips, specs, ps, k)
    && Events(s.log) == []
  }

  lemma EntryFinds(s: State, p: Probe, ips: seq<U64>, k: nat)
    requires ValidState(s) && k < |ips| <= DEEPEST && p.entry && p.ip == ips[k] && ips[k] in s.traces
    requires OnStack(StackOf(s.stacks, p.task), ips, k)
    ensures Finds(s, p, ips[k], if k > 0 then ips[k - 1] else 0) && OnStack(AtStack(s, p).stack, ips, k + 1)
  {
    Pushes(StackOf(s.stacks, p.task), ips, k);
  }

  // One record changes; the chain stays.
  lemma ChainStays(s: State, r: State, ips: seq<U64>, specs: seq<Spec>, ps: seq<Probe>, k: nat)
    requires IsChain(s, ips, specs) && k < |ips| == |ps| && ips[k] in r.traces
    requires r.traces == s.traces[ips[k] := r.traces[ips[k]]] && r.traces[ips[k]].spec == specs[k]
    requires FirstStashed(s, ips, specs, ps, k) && IsStashed(r, ips[k], specs[k], ps[k])
    ensures IsChain(r, ips, specs) && FirstStashed(r, ips, specs, ps, k + 1)
  {
    forall i | 0 <= i < k + 1
      ensures IsStashed(r, ips[i], specs[i], ps[i])
    {
      assert i < k ==> IsStashed(s, ips[i], specs[i], ps[i]) && ips[i] != ips[k];
    }
  }

  lemma {:induction false} EnterNext(s: State, ips: seq<U64>, specs: seq<Spec>, ps: seq<Probe>, task: U64, k: nat)
    requires StandsIn(s, ips, specs, ps, task, k) && k < |ips| - 1
    ensures StandsIn(Fire(s, ps[k]), ips, specs, ps, task, k + 1)
  {
    var p, ip, r := ps[k], ips[k], Fire(s, ps[k]);
    EntryFinds(s, p, ips, k);
    StashesNext(s, p, ip, if k > 0 then ips[k - 1] else 0, specs[k]);
    FireMovesStack(s, p);
    ChainStays(s, r, ips, specs, ps, k);
  }

  lemma {:induction false} StashesNext(s: State, p: Probe, ip: U64, lastIp: U64, spec: Spec)
    requires ValidState(s) && p.entry && Finds(s, p, ip, lastIp) && s.traces[ip].spec == spec && GoodProbe(spec, p)
    requires spec.nextIp != 0 && spec.prevIp == lastIp && Events(s.log) == []
    ensures var r := Fire(s, p);
      IsStashed(r, ip, spec, p) && r.traces == s.traces[ip := r.traces[ip]] && Events(r.log) == []
  {
    MidChainStashes(s, p, ip, lastIp);
    EventsAdd(s.log + [Wiped(ip)], [Stashed(ip, p)]);
    EventsAdd(s.log, [Wiped(ip)]);
  }

  // ---------------------------------------------------------------------------
  // The entry into the last function
  // ---------------------------------------------------------------------------

  // An event of the function at ip with the data of a probe.
  ghost predicate EventOf(e: Item, ip: U64, spec: Spec, p: Probe) {
    e.Emitted? && e.ip == ip && ValidProbe(p) && |spec.values| == MAX_TRACES && RecordedBy(e.trace, spec, p)
  }

  ghost predicate EventsOfChain(es: seq<Item>, ips: seq<U64>, specs: seq<Spec>, ps: seq<Probe>, n: nat)
    requires n <= |ips| == |specs| == |ps|
  {
    |es| == n && forall i :: 0 <= i < n ==> EventOf(es[i], ips[i], specs[i], ps[i])
  }

  // The scan at the end passes all the functions before.
  lemma ReachesAll(s: State, ws: Words, p: Probe)
    requires !ws.skipZero && (forall i, j :: 0 <= i < j < |ws.at| ==> ws.at[i] != ws.at[j])
    requires forall j :: 0 <= j < |ws.at| ==> Plain(s, ws.at[j]) && s.traces[ws.at[j]].task == p.task
    ensures Reach(s, ws, p, 0) == |ws.at|
  {
    forall n | 0 <= n < |ws.at|
      ensures Passes(s, ws, p, n)
    {
      NotBefore(ws, n, ws.at[n]);
      assert Plain(s, ws.at[n]);
    }
  }

  lemma StashedIsEvent(s: State, w: U64, spec: Spec, p: Probe)
    requires IsStashed(s, w, spec, p)
    ensures Plain(s, w)
    ensures EventOf(Emitted(w, s.traces[w].(flags := s.traces[w].flags.(stashed := false))), w, spec, p)
  {
  }

  lemma ChainSnoc(es: seq<Item>, e: Item, ips: seq<U64>, specs: seq<Spec>, ps: seq<Probe>, n: nat)
    requires n < |ips| == |specs| == |ps|
    requires EventsOfChain(es, ips, specs, ps, n) && EventOf(e, ips[n], specs[n], ps[n])
    ensures EventsOfChain(es + [e], ips, specs, ps, n + 1)
  {
  }

  lemma AllPlain(s: State, ips: seq<U64>, specs: seq<Spec>, ps: seq<Probe>, n: nat)
    requires n <= |ips| == |specs| == |ps| && FirstStashed(s, ips, specs, ps, n)
    ensures forall j :: 0 <= j < n ==> Plain(s, ips[j])
  {
    forall j | 0 <= j < n
      ensures Plain(s, ips[j])
    {
      StashedIsEvent(s, ips[j], specs[j], ps[j]);
    }
  }

  lemma {:induction false} EventsOfEach(s: State, ws: Words, specs: seq<Spec>, ps: seq<Probe>, n: nat)
    requires n <= |ws.at| == |specs| == |ps| && FirstStashed(s, ws.at, specs, ps, n)
    ensures forall j :: 0 <= j < n ==> Plain(s, ws.at[j])
    ensures EventsOfChain(Events(EachOnce(s, ws, n)), ws.at, specs, ps, n)
  {
    AllPlain(s, ws.at, specs, ps, n);
    if n > 0 {
      EventsOfEach(s, ws, specs, ps, n - 1);
      OneMoreEvent(s, ws, specs, ps, n);
    }
  }

  lemma {:induction false} OneMoreEvent(s: State, ws: Words, specs: seq<Spec>, ps: seq<Probe>, n: nat)
    requires 0 < n <= |ws.at| == |specs| == |ps| && IsStashed(s, ws.at[n - 1], specs[n - 1], ps[n - 1])
    requires forall j :: 0 <= j < n ==> Plain(s, ws.at[j])
    requires EventsOfChain(Events(EachOnce(s, ws, n - 1)), ws.at, specs, ps, n - 1)
    ensures EventsOfChain(Events(EachOnce(s, ws, n)), ws.at, specs, ps, n)
  {
    var w, before := ws.at[n - 1], EachOnce(s, ws, n - 1);
    var t := s.traces[w].(flags := s.traces[w].flags.(stashed := false));
    StashedIsEvent(s, w, specs[n - 1], ps[n - 1]);
    EmitsOne(before, w, t);
    ChainSnoc(Events(before), Emitted(w, t), ws.at, specs, ps, n - 1);
  }

  lemma EmitsOne(log: seq<Item>, ip: U64, t: Trace)
    ensures Events(log + [Emitted(ip, t), Wiped(ip)]) == Events(log) + [Emitted(ip, t)]
  {
    var more := log + [Emitted(ip, t)];
    assert more[..|more| - 1] == log;
    assert more + [Wiped(ip)] == log + [Emitted(ip, t), Wiped(ip)];
    assert (more + [Wiped(ip)])[..|more|] == more;
  }

  // What the end of a chain outputs, when every caller on the stack is stashed by the task.
  lemma {:induction false} OutputsAll(s: State, ip: U64, p: Probe, ws: Words)
    requires ValidState(s) && ip in s.traces && p.task in s.stacks && p.entry
    requires var t := s.traces[ip];
      && t.spec.prevIp != 0 && t.spec.nextIp == 0
      && !t.flags.stashed && !t.flags.stash && t.bufLen > 0
    requires ws == Callers(s.stacks[p.task])
    requires forall i, j :: 0 <= i < j < |ws.at| ==> ws.at[i] != ws.at[j]
    requires forall j :: 0 <= j < |ws.at| ==> Plain(s, ws.at[j]) && s.traces[ws.at[j]].task == p.task
    ensures Output(s, ip, p).log == s.log + EachOnce(s, ws, |ws.at|) + [Emitted(ip, s.traces[ip]), Wiped(ip)]
  {
    var t := s.traces[ip];
    ReachesAll(s, ws, p);
    EntryOutputsCallers(s, ip, p);
    EachCallerOnce(s, ws, p, |ws.at|);
    assert t.(flags := t.flags.(stashed := false)) == t;
  }

  // The state when the last function is about to output: its own data is recorded, and that of the
  // others stashed.
  ghost predicate AtOutput(s: State, p: Probe, ips: seq<U64>, specs: seq<Spec>, ps: seq<Probe>, n: nat)
    requires n < |ips| == |specs| == |ps|
  {
    && ValidState(s) && p.task in s.stacks && p == ps[n] && p.entry && ips[n] in s.traces && Events(s.log) == []
    && (forall i, j :: 0 <= i < j < n ==> ips[i] != ips[j])
    && (forall i :: 0 <= i < n ==> ps[i].task == p.task)
    && FirstStashed(s, ips, specs, ps, n)
    && Callers(s.stacks[p.task]).at == ips[..n]
    && var t := s.traces[ips[n]];
    && t.spec.prevIp != 0 && t.spec.nextIp == 0 && !t.flags.stashed && !t.flags.stash
    && EventOf(Emitted(ips[n], t), ips[n], specs[n], p)
  }

  lemma {:induction false} OutputsChain(s: State, p: Probe, ips: seq<U64>, specs: seq<Spec>, ps: seq<Probe>, n: nat)
    requires n < |ips| == |specs| == |ps| && AtOutput(s, p, ips, specs, ps, n)
    ensures EventsOfChain(Events(Output(s, ips[n], p).log), ips, specs, ps, n + 1)
  {
    var ip, ws := ips[n], Callers(s.stacks[p.task]);
    EachStashed(s, p, ws, ips, specs, ps, n);
    OutputsAll(s, ip, p, ws);
    EventsJoin(s.log, EachOnce(s, ws, n), ip, s.traces[ip]);
    ChainSnoc(Events(EachOnce(s, ws, n)), Emitted(ip, s.traces[ip]), ips, specs, ps, n);
  }

  lemma EventsJoin(log: seq<Item>, each: seq<Item>, ip: U64, t: Trace)
    requires Events(log) == []
    ensures Events(log + each + [Emitted(ip, t), Wiped(ip)]) == Events(each) + [Emitted(ip, t)]
  {
    EventsAdd(log, each);
    EmitsOne(log + each, ip, t);
  }

  lemma EachStashed(s: State, p: Probe, ws: Words, ips: seq<U64>, specs: seq<Spec>, ps: seq<Probe>, n: nat)
    requires n < |ips| == |specs| == |ps| && ws.at == ips[..n] && FirstStashed(s, ips, specs, ps, n)
    requires forall i :: 0 <= i < n ==> ps[i].task == p.task
    ensures forall j :: 0 <= j < n ==> Plain(s, ws.at[j]) && s.traces[ws.at[j]].task == p.task
    ensures EventsOfChain(Events(EachOnce(s, ws, n)), ips, specs, ps, n)
  {
    forall j | 0 <= j < n
      ensures IsStashed(s, ws.at[j], specs[..n][j], ps[..n][j]) && s.traces[ws.at[j]].task == p.task
    {
      assert IsStashed(s, ips[j], specs[j], ps[j]);
    }
    EventsOfEach(s, ws, specs[..n], ps[..n], n);
    var es := Events(EachOnce(s, ws, n));
    assert forall i :: 0 <= i < n ==> EventOf(es[i], ws.at[i], specs[..n][i], ps[..n][i]);
  }

  // s' is s with the data of the probe in the record at ip, and the function on the stack.
  ghost predicate Filled(s: State, s': State, p: Probe, ip: U64)
    requires ValidState(s) && ip in s.traces && ValidProbe(p) && ValidTrace(s.traces[ip])
  {
    && ValidState(s') && s'.stacks == s.stacks[p.task := AtStack(s, p).stack] && s'.log == s.log + [Wiped(ip)]
    && ip in s'.traces && s'.traces == s.traces[ip := s'.traces[ip]]
    && !s'.traces[ip].flags.stashed && RecordedBy(s'.traces[ip], s.traces[ip].spec, p)
  }

  lemma {:induction false} LastFires(s: State, p: Probe, ip: U64, lastIp: U64) returns (s': State)
    requires ValidState(s) && p.entry && Finds(s, p, ip, lastIp) && GoodProbe(s.traces[ip].spec, p)
    requires var spec := s.traces[ip].spec; spec.nextIp == 0 && spec.prevIp == lastIp && !spec.stash
    ensures Filled(s, s', p, ip) && Fire(s, p) == Output(s', ip, p)
  {
    var t := s.traces[ip];
    FireOpens(s, p, ip, lastIp, false);
    PassOverOpened(t, p, false);
    PassKeepsStamp(Opened(t, p, false), 0, p);
    var g, a := GetTrace(s, p), Arguments(Opened(t, p, false), 0, p);
    s' := Put(g.s, ip, a.t);
    assert a.t.(flags := a.t.flags.(stash := false)) == a.t;
  }

  // The last entry comes to that state.
  lemma {:induction false} LastComes(s: State, s': State, ips: seq<U64>, specs: seq<Spec>, ps: seq<Probe>, task: U64,
                                     n: nat)
    requires StandsIn(s, ips, specs, ps, task, n) && n == |ips| - 1
    requires Filled(s, s', ps[n], ips[n]) && OnStack(AtStack(s, ps[n]).stack, ips, n + 1)
    ensures AtOutput(s', ps[n], ips, specs, ps, n)
  {
    EventsAdd(s.log, [Wiped(ips[n])]);
    forall i | 0 <= i < n
      ensures IsStashed(s', ips[i], specs[i], ps[i])
    {
      assert IsStashed(s, ips[i], specs[i], ps[i]) && ips[i] != ips[n];
    }
    var fs := AtStack(s, ps[n]).stack;
    assert fs.ips[..n] == fs.ips[..n + 1][..n] == ips[..n];
  }

  lemma StandsAtStart(s: State, ips: seq<U64>, specs: seq<Spec>, ps: seq<Probe>, task: U64)
    requires Loaded(s) && IsChain(s, ips, specs) && EntersChain(ps, ips, specs, task)
    ensures StandsIn(s, ips, specs, ps, task, 0)
  {
  }

  lemma {:induction false} RunStands(s: State, ips: seq<U64>, specs: seq<Spec>, ps: seq<Probe>, task: U64, k: nat)
    requires StandsIn(s, ips, specs, ps, task, 0) && k < |ips| == |ps| && AllValid(ps)
    ensures StandsIn(FireAll(s, ps[..k]), ips, specs, ps, task, k)
  {
    if k == 0 {
      assert ps[..k] == [];
    } else {
      RunStands(s, ips, specs, ps, task, k - 1);
      EnterNext(FireAll(s, ps[..k - 1]), ips, specs, ps, task, k - 1);
      FireOneMore(s, ps, k);
    }
  }

  ghost predicate AllValid(ps: seq<Probe>) {
    forall i :: 0 <= i < |ps| ==> ValidProbe(ps[i])
  }

  lemma {:induction false} FireOneMore(s: State, ps: seq<Probe>, k: nat)
    requires ValidState(s) && AllValid(ps) && 0 < k <= |ps|
    ensures FireAll(s, ps[..k]) == Fire(FireAll(s, ps[..k - 1]), ps[k - 1])
  {
    FireAllSnoc(s, ps[..k - 1], ps[k - 1]);
    assert ps[..k - 1] + [ps[k - 1]] == ps[..k];
  }

  lemma {:induction false} FireAllSnoc(s: State, ps: seq<Probe>, p: Probe)
    requires ValidState(s) && ValidProbe(p) && forall i :: 0 <= i < |ps| ==> ValidProbe(ps[i])
    ensures FireAll(s, ps + [p]) == Fire(FireAll(s, ps), p)
    decreases |ps|
  {
    if ps == [] {
      assert (ps + [p])[1..] == [];
    } else {
      AppendTail(ps, [p]);
      FireAllSnoc(Fire(s, ps[0]), ps[1..], p);
    }
  }

  lemma EntersValid(ps: seq<Probe>, ips: seq<U64>, specs: seq<Spec>, task: U64)
    requires EntersChain(ps, ips, specs, task)
    ensures |ps| == |ips| == |specs| && AllValid(ps)
  {
    forall i | 0 <= i < |ps|
      ensures ValidProbe(ps[i])
    {
      assert GoodProbe(specs[i], ps[i]);
    }
  }

  lemma {:induction false} LastReports(s: State, ips: seq<U64>, specs: seq<Spec>, ps: seq<Probe>, task: U64, n: nat)
    requires StandsIn(s, ips, specs, ps, task, n) && n == |ips| - 1 && !specs[n].stash
    ensures ValidProbe(ps[n]) && |ips| == |specs| == |ps|
    ensures EventsOfChain(Events(Fire(s, ps[n]).log), ips, specs, ps, n + 1)
  {
    EntryFinds(s, ps[n], ips, n);
    var s' := LastFires(s, ps[n], ips[n], ips[n - 1]);
    LastComes(s, s', ips, specs, ps, task, n);
    OutputsChain(s', ps[n], ips, specs, ps, n);
  }

  // A task that goes down the whole chain, each function called from the one before, with entries
  // that pass: nothing is emitted until the last function is entered, and then one event for each
  // function, in the order of the chain, with the data of its own entry.
  lemma {:induction false} ChainIsReported(s: State, ips: seq<U64>, specs: seq<Spec>, ps: seq<Probe>, task: U64)
    requires Loaded(s) && IsChain(s, ips, specs) && EntersChain(ps, ips, specs, task) && !specs[|ips| - 1].stash
    ensures |ps| == |ips| == |specs| && AllValid(ps)
    ensures forall k :: 0 <= k < |ips| ==> Events(FireAll(s, ps[..k]).log) == []
    ensures EventsOfChain(Events(FireAll(s, ps).log), ips, specs, ps, |ips|)
  {
    EntersValid(ps, ips, specs, task);
    StandsAtStart(s, ips, specs, ps, task);
    forall k | 0 <= k < |ips|
      ensures Events(FireAll(s, ps[..k]).log) == []
    {
      RunStands(s, ips, specs, ps, task, k);
    }
    EndReports(s, ips, specs, ps, task, |ips| - 1);
  }

  lemma {:induction false} EndReports(s: State, ips: seq<U64>, specs: seq<Spec>, ps: seq<Probe>, task: U64, n: nat)
    requires StandsIn(s, ips, specs, ps, task, 0) && n + 1 == |ips| == |ps| == |specs|
    requires AllValid(ps) && !specs[n].stash
    ensures EventsOfChain(Events(FireAll(s, ps).log), ips, specs, ps, n + 1)
  {
    RunStands(s, ips, specs, ps, task, n);
    LastReports(FireAll(s, ps[..n]), ips, specs, ps, task, n);
    FireOneMore(s, ps, n + 1);
    assert ps[..n + 1] == ps;
  }
}
