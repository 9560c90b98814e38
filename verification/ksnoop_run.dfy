// Whole runs of the ksnoop program: any probes of any tasks, one after the other on one CPU.
module KsnoopRun {
  import opened Machine
  import opened KsnoopStack
  import opened Ksnoop

  // What happens to the trace record of a function: it is cleared, its data is kept for later
  // (STASH becomes STASHED) while the given probe is handled, or it is emitted.
  datatype Item = Wiped(ip: U64) | Stashed(ip: U64, probe: Probe) | Emitted(ip: U64, trace: Trace)

  // The two maps, and the log of what happened to the records.
  datatype State = State(stacks: Stacks, traces: map<U64, Trace>, log: seq<Item>)

  predicate ValidState(s: State) {
    ValidStacks(s.stacks) && forall ip :: ip in s.traces ==> ValidTrace(s.traces[ip])
  }

  function Put(s: State, ip: U64, t: Trace): State {
    s.(traces := s.traces[ip := t])
  }

  function Wipe(s: State, ip: U64): (r: State)
    requires ValidState(s) && ip in s.traces
    ensures ValidState(r)
  {
    Put(s, ip, Cleared(s.traces[ip])).(log := s.log + [Wiped(ip)])
  }

  function StackEventOf(p: Probe): StackEvent {
    if p.entry then In(p.ip) else Out
  }

  function AtStack(s: State, p: Probe): Step
    requires ValidState(s)
  {
    Handle(StackOf(s.stacks, p.task), StackEventOf(p))
  }

  datatype Gate = Closed(s: State) | Open(s: State, ip: U64)

  // get_trace: move the stack, find the record, clear it unless it holds stashed data for a
  // return, and check the function before or after it in the chain.
  function GetTrace(s: State, p: Probe): (g: Gate)
    requires ValidState(s)
    ensures ValidState(g.s)
    ensures g.Open? ==> g.ip in g.s.traces && p.task in g.s.stacks
  {
    var step := AtStack(s, p);
    var s1 := s.(stacks := s.stacks[p.task := step.stack]);
    if step.outcome.Refused? || step.outcome.ip !in s1.traces then Closed(s1)
    else
      var ip, lastIp := step.outcome.ip, step.outcome.lastIp;
      var t := s1.traces[ip];
      if !p.entry && t.spec.stash && !t.flags.stashed then Closed(s1)
      else
        var s2 := if !p.entry && t.spec.stash then s1 else Wipe(s1, ip);
        var t2 := s2.traces[ip];
        var expected := if p.entry then t2.spec.prevIp else t2.spec.nextIp;
        if expected != 0 && expected != lastIp then Closed(s2)
        else
          var later := if p.entry then t2.spec.nextIp != 0 || t2.spec.stash else t2.spec.prevIp != 0;
          var t3 := t2.(flags := t2.flags.(stash := t2.flags.stash || later), task := p.task);
          Open(Put(s2, ip, t3), ip)
  }

  // A record after it was output: kept for later if it is marked STASH and not empty, else cleared.
  function Outputted(t: Trace): (r: Trace)
    requires ValidTrace(t)
    ensures ValidTrace(r)
  {
    if t.bufLen > 0 && t.flags.stash then t.(flags := t.flags.(stash := false, stashed := true)) else Cleared(t)
  }

  // What happens to it meanwhile.
  function OutputItems(ip: U64, t: Trace, p: Probe): seq<Item> {
    if t.bufLen == 0 then [Wiped(ip)]
    else if t.flags.stash then [Stashed(ip, p)]
    else [Emitted(ip, t.(flags := t.flags.(stashed := false))), Wiped(ip)]
  }

  function OutputTrace(s: State, ip: U64, p: Probe): (r: State)
    requires ValidState(s) && ip in s.traces
    ensures ValidState(r) && r.stacks == s.stacks && r.traces.Keys == s.traces.Keys
  {
    var t := s.traces[ip];
    State(s.stacks, s.traces[ip := Outputted(t)], s.log + OutputItems(ip, t, p))
  }

  // The scan at an entry: stashed callers from the bottom of the stack up.
  function OutputCallers(s: State, ip: U64, p: Probe, i: nat): (r: State)
    requires ValidState(s) && ip in s.traces && p.task in s.stacks
    ensures ValidState(r) && r.stacks == s.stacks && r.traces.Keys == s.traces.Keys
    decreases MAX_DEPTH - i
  {
    if i >= MAX_DEPTH || i >= s.stacks[p.task].depth - 1 then OutputTrace(s, ip, p)
    else match CallerAt(s, p, i)
      case End => OutputTrace(s, ip, p)
      case Quit => s
      case Go => OutputCallers(OutputTrace(s, s.stacks[p.task].ips[i], p), ip, p, i + 1)
  }

  // Where the scan at an entry goes from index i.
  function CallerAt(s: State, p: Probe, i: nat): Scan
    requires ValidState(s) && p.task in s.stacks && i < MAX_DEPTH
  {
    var ip' := s.stacks[p.task].ips[i];
    if ip' !in s.traces || !s.traces[ip'].flags.stashed then End
    else if s.traces[ip'].task != p.task then Quit
    else Go
  }

  // Index 16 is one past the end of ips, and the word found there is an input.
  function StackWord(s: State, p: Probe, i: nat): U64
    requires ValidState(s) && p.task in s.stacks && i <= MAX_DEPTH
  {
    if i == MAX_DEPTH then p.beyond else s.stacks[p.task].ips[i]
  }

  datatype Scan = Go | End | Quit

  function ScanAt(s: State, p: Probe, i: nat): Scan
    requires ValidState(s) && p.task in s.stacks && i <= MAX_DEPTH
  {
    var ip' := StackWord(s, p, i);
    if ip' == 0 then Go
    else if ip' !in s.traces || !s.traces[ip'].flags.stashed then End
    else if s.traces[ip'].task != p.task then Quit
    else Go
  }

  function VisitCallee(s: State, p: Probe, i: nat): (r: State)
    requires ValidState(s) && p.task in s.stacks && i <= MAX_DEPTH && ScanAt(s, p, i).Go?
    ensures ValidState(r) && r.stacks == s.stacks && r.traces.Keys == s.traces.Keys
  {
    var ip' := StackWord(s, p, i);
    if ip' == 0 then s else OutputTrace(s, ip', p)
  }

  // The scan at a return: stashed callees from index 16 down to 1, passing over zero words.
  function OutputCallees(s: State, ip: U64, p: Probe, i: nat): (r: State)
    requires ValidState(s) && ip in s.traces && p.task in s.stacks && i <= MAX_DEPTH
    ensures ValidState(r) && r.stacks == s.stacks && r.traces.Keys == s.traces.Keys
    decreases i
  {
    if i == 0 then OutputTrace(s, ip, p)
    else match ScanAt(s, p, i)
      case End => OutputTrace(s, ip, p)
      case Quit => s
      case Go => OutputCallees(VisitCallee(s, p, i), ip, p, i - 1)
  }

  predicate EndsChain(spec: Spec, entry: bool) {
    if entry then spec.prevIp != 0 && spec.nextIp == 0 else spec.nextIp != 0 && spec.prevIp == 0
  }

  function Output(s: State, ip: U64, p: Probe): (r: State)
    requires ValidState(s) && ip in s.traces && p.task in s.stacks
    ensures ValidState(r) && r.stacks == s.stacks && r.traces.Keys == s.traces.Keys
  {
    if !EndsChain(s.traces[ip].spec, p.entry) then OutputTrace(s, ip, p)
    else if p.entry then OutputCallers(s, ip, p, 0)
    else OutputCallees(s, ip, p, |s.stacks[p.task].ips|)
  }

  function Stamped(t: Trace, p: Probe): Trace {
    t.(pid := p.pid, time := p.time, flags := t.flags.(entry := p.entry, ret := !p.entry))
  }

  // What a probe does with the record it found.
  function Record(s: State, ip: U64, p: Probe): (r: State)
    requires ValidState(s) && ValidProbe(p) && ip in s.traces && p.task in s.stacks
    ensures ValidState(r)
  {
    var t := s.traces[ip];
    if t.spec.filterPid != 0 && t.spec.filterPid != p.pid then s
    else
      var a := Arguments(Stamped(t, p), 0, p);
      if a.Rejected? then Wipe(Put(s, ip, a.t), ip) else Output(Put(s, ip, a.t), ip, p)
  }

  // One firing of kprobe_entry or kprobe_return.
  function Fire(s: State, p: Probe): (r: State)
    requires ValidState(s) && ValidProbe(p)
    ensures ValidState(r)
  {
    var g := GetTrace(s, p);
    if g.Closed? then g.s else Record(g.s, g.ip, p)
  }

  function FireAll(s: State, ps: seq<Probe>): (r: State)
    requires ValidState(s) && forall i :: 0 <= i < |ps| ==> ValidProbe(ps[i])
    ensures ValidState(r)
    decreases |ps|
  {
    if ps == [] then s else FireAll(Fire(s, ps[0]), ps[1..])
  }

  // ---------------------------------------------------------------------------
  // The program
  // ---------------------------------------------------------------------------

  class Program {
    var stacks: Stacks
    var traces: map<U64, Trace>
    var log: seq<Item>

    function View(): State
      reads this
    {
      State(stacks, traces, log)
    }

    ghost predicate Valid()
      reads this
    {
      ValidState(View())
    }

    // Loading the program stores the records that user space parsed, under their addresses.
    constructor (traces: map<U64, Trace>)
      requires forall ip :: ip in traces ==> ValidTrace(traces[ip])
      ensures Valid() && View() == State(map[], traces, [])
    {
      this.stacks, this.traces, this.log := map[], traces, [];
    }

    method ClearTrace(ip: U64)
      requires Valid() && ip in traces
      modifies this`traces, this`log
      ensures Valid() && View() == Wipe(old(View()), ip)
    {
      var t := traces[ip];
      t := t.(data := ZERO_DATA);
      t := t.(flags := NO_FLAGS);
      t := t.(bufLen := 0);
      traces := traces[ip := t];
      log := log + [Wiped(ip)];
    }

    // The first half of get_trace: push or pop, and read the slot next to the top.
    method MoveStack(p: Probe) returns (outcome: Outcome)
      requires Valid()
      modifies this`stacks
      ensures Valid()
      ensures stacks == old(stacks)[p.task := AtStack(old(View()), p).stack]
      ensures outcome == AtStack(old(View()), p).outcome
    {
      if p.task !in stacks {
        stacks := stacks[p.task := EMPTY_STACK];
      }
      var fs := stacks[p.task];
      if fs.depth > MAX_DEPTH {
        return Refused;
      }
      if p.entry {
        if fs.depth >= MAX_DEPTH - 1 {
          return Refused;
        }
        var lastIp: U64 := 0;
        var lastDepth := (fs.depth + TWO8 - 1) % TWO8;
        if lastDepth < MAX_DEPTH {
          lastIp := fs.ips[lastDepth];
        }
        fs := fs.(ips := fs.ips[fs.depth := p.ip]);
        fs := fs.(depth := (fs.depth + 1) % MAX_DEPTH);
        fs := fs.(ips := fs.ips[fs.depth := 0]);
        stacks := stacks[p.task := fs];
        return Entered(p.ip, lastIp);
      } else {
        if fs.depth == 0 || fs.depth >= MAX_DEPTH {
          return Refused;
        }
        var lastIp := fs.ips[fs.depth];
        fs := fs.(depth := (fs.depth - 1) % MAX_DEPTH);
        stacks := stacks[p.task := fs];
        return Left(fs.ips[fs.depth], lastIp);
      }
    }

    method DoGetTrace(p: Probe) returns (found: Option<U64>)
      requires Valid()
      modifies this
      ensures Valid()
      ensures View() == GetTrace(old(View()), p).s
      ensures found == match GetTrace(old(View()), p) case Closed(_) => None case Open(_, ip) => Some(ip)
    {
      var outcome := MoveStack(p);
      if outcome.Refused? {
        return None;
      }
      var ip, lastIp := outcome.ip, outcome.lastIp;
      if ip !in traces {
        return None;
      }
      if !p.entry && traces[ip].spec.stash {
        if !traces[ip].flags.stashed {
          return None;
        }
      } else {
        ClearTrace(ip);
      }
      var t := traces[ip];
      if p.entry {
        if t.spec.prevIp != 0 && t.spec.prevIp != lastIp {
          return None;
        }
        if t.spec.nextIp != 0 {
          t := t.(flags := t.flags.(stash := true));
        }
        if t.spec.stash {
          t := t.(flags := t.flags.(stash := true));
        }
      } else {
        if t.spec.nextIp != 0 && t.spec.nextIp != lastIp {
          return None;
        }
        if t.spec.prevIp != 0 {
          t := t.(flags := t.flags.(stash := true));
        }
      }
      t := t.(task := p.task);
      traces := traces[ip := t];
      return Some(ip);
    }

    method DoOutputTrace(ip: U64, p: Probe)
      requires Valid() && ip in traces
      modifies this`traces, this`log
      ensures Valid() && View() == OutputTrace(old(View()), ip, p)
    {
      ghost var before, was := traces[ip], log;
      var t := traces[ip];
      if t.bufLen != 0 {
        if t.flags.stash {
          t := t.(flags := t.flags.(stash := false));
          t := t.(flags := t.flags.(stashed := true));
          traces := traces[ip := t];
          log := log + [Stashed(ip, p)];
          return;
        }
        if t.flags.stashed {
          t := t.(flags := t.flags.(stashed := false));
        }
        traces := traces[ip := t];
        log := log + [Emitted(ip, t)];
      }
      ClearTrace(ip);
      assert log == was + OutputItems(ip, before, p);
    }

    method DoVisitCaller(p: Probe, i: nat) returns (next: Scan)
      requires Valid() && p.task in stacks && i < MAX_DEPTH
      modifies this`traces, this`log
      ensures Valid()
      ensures next == CallerAt(old(View()), p, i)
      ensures View() == if next.Go? then OutputTrace(old(View()), stacks[p.task].ips[i], p) else old(View())
    {
      var ip' := stacks[p.task].ips[i];
      if ip' !in traces || !traces[ip'].flags.stashed {
        return End;
      }
      if traces[ip'].task != p.task {
        return Quit;
      }
      DoOutputTrace(ip', p);
      return Go;
    }

    method ScanCallers(ip: U64, p: Probe)
      requires Valid() && ip in traces && p.task in stacks
      modifies this`traces, this`log
      ensures Valid() && View() == OutputCallers(old(View()), ip, p, 0)
    {
      ghost var target := OutputCallers(View(), ip, p, 0);
      var fs := stacks[p.task];
      var i := 0;
      while i < fs.depth - 1 && i < MAX_DEPTH
        invariant Valid() && ip in traces && stacks == old(stacks)
        invariant i <= MAX_DEPTH
        invariant OutputCallers(View(), ip, p, i) == target
      {
        var next := DoVisitCaller(p, i);
        if next.End? {
          break;
        }
        if next.Quit? {
          return;
        }
        i := i + 1;
      }
      DoOutputTrace(ip, p);
    }

    // The body of the scan at a return: Go is its end or a continue, End a break, Quit a return.
    method DoVisitCallee(p: Probe, i: nat) returns (next: Scan)
      requires Valid() && p.task in stacks && i <= MAX_DEPTH
      modifies this`traces, this`log
      ensures Valid()
      ensures next == ScanAt(old(View()), p, i)
      ensures View() == if next.Go? then VisitCallee(old(View()), p, i) else old(View())
    {
      var ip' := if i == MAX_DEPTH then p.beyond else stacks[p.task].ips[i];
      if ip' == 0 {
        return Go;
      }
      if ip' !in traces || !traces[ip'].flags.stashed {
        return End;
      }
      if traces[ip'].task != p.task {
        return Quit;
      }
      DoOutputTrace(ip', p);
      return Go;
    }

    method ScanCallees(ip: U64, p: Probe)
      requires Valid() && ip in traces && p.task in stacks
      modifies this`traces, this`log
      ensures Valid() && View() == OutputCallees(old(View()), ip, p, |old(stacks)[p.task].ips|)
    {
      var i: nat := |stacks[p.task].ips|;
      ghost var target := OutputCallees(View(), ip, p, i);
      while i > 0
        invariant Valid() && ip in traces && stacks == old(stacks)
        invariant i <= MAX_DEPTH
        invariant OutputCallees(View(), ip, p, i) == target
      {
        var next := DoVisitCallee(p, i);
        if next.End? {
          break;
        }
        if next.Quit? {
          return;
        }
        i := i - 1;
      }
      DoOutputTrace(ip, p);
    }

    static method EvaluatePredicate(cmp: Compare, raw: U64) returns (ok: bool)
      ensures ok <==> (HasPredicate(cmp) ==> Holds(cmp, raw))
    {
      ok := true;
      if cmp.eq || cmp.noteq || cmp.gt || cmp.lt {
        ok := false;
        if cmp.eq && raw == cmp.against {
          ok := true;
        }
        if cmp.noteq && raw != cmp.against {
          ok := true;
        }
        if cmp.gt && raw > cmp.against {
          ok := true;
        }
        if cmp.lt && raw < cmp.against {
          ok := true;
        }
      }
    }

    // Copies at most MAX_TRACE_DATA bytes to the end of the recorded data.
    static method CopyArgument(t: Trace, i: nat, v: Value, copy: Copy) returns (r: Trace)
      requires ValidTrace(t) && i < MAX_TRACES && t.bufLen + MAX_TRACE_DATA < MAX_TRACE_BUF
      requires copy.Bytes? ==> |copy.bytes| == MAX_TRACE_DATA
      ensures r == Fill(t, i, v, copy)
    {
      var slot := t.data[i];
      r := t;
      slot := slot.(bufOffset := t.bufLen);
      var size := v.size;
      if size > MAX_TRACE_DATA {
        size := MAX_TRACE_DATA;
      }
      if copy.CopyFault? {
        slot := slot.(errTypeId := v.typeId, err := copy.err);
      } else {
        slot := slot.(bufLen := size);
        r := r.(buf := t.buf[..t.bufLen] + copy.bytes[..size] + t.buf[t.bufLen + size..]);
        r := r.(bufLen := t.bufLen + size);
      }
      r := r.(data := r.data[i := slot]);
    }

    // The body of the argument loop: Next is its end or a continue, Full a break, Rejected a
    // failed predicate.
    static method DoArgument(t: Trace, i: nat, entry: bool, input: Input) returns (r: ArgResult)
      requires ValidTrace(t) && i < MAX_TRACES && ValidInput(input)
      ensures r == Argument(t, i, entry, input)
    {
      var v, slot := t.spec.values[i], t.data[i];
      if (entry && v.baseArg == KSNOOP_RETURN) || (!entry && v.baseArg != KSNOOP_RETURN) {
        return Next(t);
      }
      if v.typeId == 0 && !v.ptr {
        return Next(t);
      }
      if v.member {
        if v.ptr {
          if input.pointer.Fault? {
            slot := slot.(errTypeId := v.typeId, err := input.pointer.err);
            return Next(t.(data := t.data[i := slot]));
          }
          slot := slot.(rawValue := input.pointer.value);
        } else if v.size <= 8 {
          slot := slot.(rawValue := input.memberRaw);
        }
      } else {
        slot := slot.(rawValue := input.reg);
      }
      var t' := t.(data := t.data[i := slot]);
      var ok := EvaluatePredicate(v.cmp, slot.rawValue);
      if !ok {
        return Rejected(t');
      }
      if t.bufLen + MAX_TRACE_DATA >= MAX_TRACE_BUF {
        return Full(t');
      }
      t' := CopyArgument(t', i, v, input.copy);
      return Next(t');
    }

    // The argument loop of ksnoop; false when a predicate failed.
    method DoArguments(ip: U64, p: Probe) returns (ok: bool)
      requires Valid() && ip in traces && ValidProbe(p)
      modifies this`traces
      ensures Valid()
      ensures var r := Arguments(old(traces[ip]), 0, p);
        traces == old(traces)[ip := r.t] && ok == !r.Rejected?
    {
      ghost var target := Arguments(traces[ip], 0, p);
      var r := Next(traces[ip]);
      var i := 0;
      while i < MAX_TRACES && r.Next?
        invariant traces == old(traces)
        invariant i <= MAX_TRACES && ValidTrace(r.t)
        invariant target == if r.Next? then Arguments(r.t, i, p) else r
      {
        r := DoArgument(r.t, i, p.entry, p.inputs[i]);
        i := i + 1;
      }
      traces := traces[ip := r.t];
      ok := !r.Rejected?;
    }

    // Who, when and in which direction; the other flags stay.
    method Stamp(ip: U64, p: Probe)
      requires Valid() && ip in traces
      modifies this`traces
      ensures Valid() && traces == old(traces)[ip := Stamped(old(traces[ip]), p)]
    {
      var t := traces[ip];
      t := t.(pid := p.pid);
      t := t.(time := p.time);
      t := t.(flags := t.flags.(entry := false, ret := false));
      if p.entry {
        t := t.(flags := t.flags.(entry := true));
      } else {
        t := t.(flags := t.flags.(ret := true));
      }
      traces := traces[ip := t];
    }

    method DoFire(p: Probe)
      requires Valid() && ValidProbe(p)
      modifies this
      ensures Valid() && View() == Fire(old(View()), p)
    {
      var found := DoGetTrace(p);
      if found.Some? {
        DoRecord(found.value, p);
      }
    }

    // Stamps the record and runs the argument loop on it.
    method DoFill(ip: U64, p: Probe) returns (ok: bool)
      requires Valid() && ip in traces && ValidProbe(p)
      modifies this`traces
      ensures Valid()
      ensures var a := Arguments(Stamped(old(traces[ip]), p), 0, p);
        View() == Put(old(View()), ip, a.t) && ok == !a.Rejected?
    {
      ghost var was, a := traces, Arguments(Stamped(traces[ip], p), 0, p);
      Stamp(ip, p);
      ok := DoArguments(ip, p);
      assert was[ip := Stamped(was[ip], p)][ip := a.t] == was[ip := a.t];
    }

    method DoRecord(ip: U64, p: Probe)
      requires Valid() && ValidProbe(p) && ip in traces && p.task in stacks
      modifies this`traces, this`log
      ensures Valid() && View() == Record(old(View()), ip, p)
    {
      var filterPid := traces[ip].spec.filterPid;
      if filterPid != 0 && filterPid != p.pid {
        return;
      }
      var ok := DoFill(ip, p);
      if ok {
        DoOutput(ip, p);
      } else {
        ClearTrace(ip);
      }
    }

    // Ends of a chain first emit what was stashed along it.
    method DoOutput(ip: U64, p: Probe)
      requires Valid() && ip in traces && p.task in stacks
      modifies this`traces, this`log
      ensures Valid() && View() == Output(old(View()), ip, p)
    {
      var spec := traces[ip].spec;
      if (p.entry && spec.prevIp != 0 && spec.nextIp == 0) || (!p.entry && spec.nextIp != 0 && spec.prevIp == 0) {
        if p.entry {
          ScanCallers(ip, p);
        } else {
          ScanCallees(ip, p);
        }
      } else {
        DoOutputTrace(ip, p);
      }
    }
  }
}
