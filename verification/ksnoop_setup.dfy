// What user space prepares for ksnoop: the chain of functions in stack mode, and stash mode.
module KsnoopSetup {
  import opened Machine
  import opened KsnoopStack
  import opened Ksnoop
  import opened KsnoopRun
  import opened KsnoopSafety
  import opened KsnoopChain

  const MAX_FUNC_TRACES := 64

  // The fields of a trace that tell it its place in the chain.
  datatype Link = Link(ip: U64, prevIp: U64, nextIp: U64)

  // The place of function i in the chain of ips: it knows the one before and the one after it;
  // the ends have 0 there, and so has every function outside stack mode.
  function Place(ips: seq<U64>, stackMode: bool, i: nat): Link
    requires i < |ips|
  {
    Link(ips[i],
         if stackMode && i > 0 then ips[i - 1] else 0,
         if stackMode && i + 1 < |ips| then ips[i + 1] else 0)
  }

  ghost predicate Chained(links: seq<Link>, ips: seq<U64>, stackMode: bool) {
    |links| == |ips| && forall i :: 0 <= i < |links| ==> links[i] == Place(ips, stackMode, i)
  }

  // `parsed` is what parse_trace makes of each argument: the address of its function, or a
  // failure. There is at least one argument, as usage() ends the program otherwise.
  method ParseTraces(parsed: seq<Option<U64>>, stackMode: bool) returns (r: Result<array<Link>>, ghost ips: seq<U64>)
    requires |parsed| > 0
    ensures r.Ok? <==> |parsed| <= MAX_FUNC_TRACES && None !in parsed
    ensures r.Ok? ==> |ips| == |parsed| && forall i :: 0 <= i < |ips| ==> parsed[i] == Some(ips[i])
    ensures r.Ok? ==> Chained(r.value[..], ips, stackMode)
  {
    ips := [];
    if |parsed| > MAX_FUNC_TRACES {
      return Failed, ips;
    }
    var traces := new Link[|parsed|](_ => Link(0, 0, 0));
    var i := 0;
    while i < |parsed|
      invariant 0 <= i <= |parsed| && |ips| == i
      invariant forall j :: 0 <= j < i ==> parsed[j] == Some(ips[j])
      invariant forall j :: i <= j < |parsed| ==> traces[j] == Link(0, 0, 0)
      invariant forall j :: 0 <= j < i ==> traces[j] == Place(ips, stackMode, j)
    {
      if parsed[i].None? {
        return Failed, ips;
      }
      traces[i] := traces[i].(ip := parsed[i].value);
      if stackMode && i != 0 {
        traces[i] := traces[i].(prevIp := traces[i - 1].ip);
        traces[i - 1] := traces[i - 1].(nextIp := traces[i].ip);
      }
      ips := ips + [parsed[i].value];
      i := i + 1;
    }
    return Ok(traces), ips;
  }

  // An argument of a custom trace: whether it has a predicate and whether it is the return value.
  datatype TracedArg = TracedArg(hasPredicate: bool, isReturn: bool)

  // Stash mode is on exactly when predicates are used on a mix of entry and return values.
  method ActivateStash(args: seq<TracedArg>) returns (stash: bool)
    requires |args| <= MAX_TRACES
    ensures stash <==>
      && (exists i :: 0 <= i < |args| && args[i].hasPredicate)
      && (exists i :: 0 <= i < |args| && args[i].isReturn)
      && (exists i :: 0 <= i < |args| && !args[i].isReturn)
  {
    var nrPredicates: U8, nrEntry: U8, nrReturn: U8 := 0, 0, 0;
    for i := 0 to |args|
      invariant nrPredicates <= i && nrEntry <= i && nrReturn <= i
      invariant nrPredicates > 0 <==> exists j :: 0 <= j < i && args[j].hasPredicate
      invariant nrReturn > 0 <==> exists j :: 0 <= j < i && args[j].isReturn
      invariant nrEntry > 0 <==> exists j :: 0 <= j < i && !args[j].isReturn
    {
      if args[i].hasPredicate {
        nrPredicates := nrPredicates + 1;
      }
      if args[i].isReturn {
        nrReturn := nrReturn + 1;
      } else {
        nrEntry := nrEntry + 1;
      }
    }
    stash := nrPredicates > 0 && nrEntry > 0 && nrReturn > 0;
  }

  // The records of s carry the chain of links, one record per function.
  ghost predicate LoadedChain(s: State, links: seq<Link>) {
    && s.traces.Keys == (set i | 0 <= i < |links| :: links[i].ip)
    && forall i :: 0 <= i < |links| ==>
         s.traces[links[i].ip].spec.prevIp == links[i].prevIp && s.traces[links[i].ip].spec.nextIp == links[i].nextIp
  }

  // With the chain that parse_traces builds for functions a, b, c, ... of nonzero address, an
  // entry is traced exactly when it enters the first function, or enters a later one directly
  // from the function named before it, among the traced calls that the task really makes.
  lemma ChainFollowsCalls(s: State, links: seq<Link>, ips: seq<U64>, ps: seq<Probe>, k: nat, c: Calls)
    requires Chained(links, ips, true) && (forall i :: 0 <= i < |ips| ==> ips[i] != 0)
    requires ValidState(s) && s.stacks == map[] && LoadedChain(s, links)
    requires forall i :: 0 <= i < |ps| ==> ValidProbe(ps[i])
    requires k < |ps| && Nesting(c) <= DEEPEST && ps[k].entry
    requires EventsOf(TaskEvents(ps), ps[k].task) <= Probes(c)
    ensures var j := |EventsOf(TaskEvents(ps[..k]), ps[k].task)|;
      j < |Truth(c, 0)| && Truth(c, 0)[j] != Refused &&
      var ip, caller := Truth(c, 0)[j].ip, Truth(c, 0)[j].lastIp;
      GetTrace(FireAll(s, ps[..k]), ps[k]).Open? <==> exists i :: ComesNext(ips, i, ip, caller)
  {
    GateTestsRealNeighbour(s, ps, k, c);
    RunKeepsSpecs(s, ps[..k]);
    var j := |EventsOf(TaskEvents(ps[..k]), ps[k].task)|;
    ChainPlace(FireAll(s, ps[..k]), links, ips, Truth(c, 0)[j].ip, Truth(c, 0)[j].lastIp);
  }

  // Function i of the chain is at ip; it is the first one, or the one before it is at `caller`.
  predicate ComesNext(ips: seq<U64>, i: int, ip: U64, caller: U64) {
    0 <= i < |ips| && ips[i] == ip && (i == 0 || ips[i - 1] == caller)
  }

  lemma ChainPlace(s: State, links: seq<Link>, ips: seq<U64>, ip: U64, caller: U64)
    requires Chained(links, ips, true) && LoadedChain(s, links) && forall i :: 0 <= i < |ips| ==> ips[i] != 0
    ensures ip in s.traces && (s.traces[ip].spec.prevIp == 0 || s.traces[ip].spec.prevIp == caller) <==>
      exists i :: ComesNext(ips, i, ip, caller)
  {
    if ip in s.traces && (s.traces[ip].spec.prevIp == 0 || s.traces[ip].spec.prevIp == caller) {
      var i :| 0 <= i < |links| && links[i].ip == ip;
      LinkPlace(s, links, ips, i);
      assert ComesNext(ips, i, ip, caller);
    }
    if i :| ComesNext(ips, i, ip, caller) {
      LinkPlace(s, links, ips, i);
    }
  }

  // What the record of function i says of the function before it.
  lemma LinkPlace(s: State, links: seq<Link>, ips: seq<U64>, i: nat)
    requires Chained(links, ips, true) && LoadedChain(s, links) && i < |ips|
    ensures links[i].ip == ips[i] && ips[i] in s.traces
    ensures s.traces[ips[i]].spec.prevIp == if i > 0 then ips[i - 1] else 0
  {
    assert links[i] == Place(ips, true, i);
    assert links[i].ip in s.traces.Keys;
  }

  // What user space asks of each function of the chain.
  function SpecsOf(s: State, ips: seq<U64>): (specs: seq<Spec>)
    requires forall i :: 0 <= i < |ips| ==> ips[i] in s.traces
    ensures |specs| == |ips| && forall i :: 0 <= i < |ips| ==> specs[i] == s.traces[ips[i]].spec
  {
    seq(|ips|, i requires 0 <= i < |ips| => s.traces[ips[i]].spec)
  }

  // From the command line to the events: in stack mode, with the chain that parse_traces builds for
  // different functions, a task that goes down the chain is reported function by function.
  lemma ParsedChainIsReported(s: State, links: seq<Link>, ips: seq<U64>, ps: seq<Probe>, task: U64)
    requires Loaded(s) && Chained(links, ips, true) && LoadedChain(s, links) && 2 <= |ips| <= DEEPEST
    requires forall i :: 0 <= i < |ips| ==> ips[i] != 0
    requires forall i, j :: 0 <= i < j < |ips| ==> ips[i] != ips[j]
    ensures forall i :: 0 <= i < |ips| ==> ips[i] in s.traces
    ensures var specs := SpecsOf(s, ips);
      EntersChain(ps, ips, specs, task) && !specs[|ips| - 1].stash ==>
        && AllValid(ps) && |ps| == |ips| == |specs|
        && EventsOfChain(Events(FireAll(s, ps).log), ips, specs, ps, |ips|)
  {
    forall i | 0 <= i < |ips|
      ensures ips[i] in s.traces && links[i].ip == ips[i]
    {
      LinkPlace(s, links, ips, i);
    }
    var specs := SpecsOf(s, ips);
    forall i | 0 <= i < |ips|
      ensures specs[i].prevIp == (if i > 0 then ips[i - 1] else 0)
      ensures specs[i].nextIp == (if i + 1 < |ips| then ips[i + 1] else 0)
    {
      assert links[i] == Place(ips, true, i) && links[i].ip == ips[i];
    }
    if EntersChain(ps, ips, specs, task) && !specs[|ips| - 1].stash {
      ChainIsReported(s, ips, specs, ps, task);
    }
  }
}
