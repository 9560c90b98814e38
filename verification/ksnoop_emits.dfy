// What a whole scan over the stack puts out at the end of a chain.
module KsnoopEmits {
  import opened Machine
  import opened KsnoopStack
  import opened Ksnoop
  import opened KsnoopRun
  import opened KsnoopScan

  // How many words in a row a scan passes.
  function Reach(s: State, ws: Words, p: Probe, from: nat): (n: nat)
    requires from <= |ws.at|
    ensures from <= n <= |ws.at| && forall j :: from <= j < n ==> Passes(s, ws, p, j)
    ensures n < |ws.at| ==> !Passes(s, ws, p, n)
    decreases |ws.at| - from
  {
    if from < |ws.at| && Passes(s, ws, p, from) then Reach(s, ws, p, from + 1) else from
  }

  // What happens after the first n words: the record itself is output, as the scan has left it,
  // unless another task's data stops the scan.
  function Last(s: State, ws: Words, n: nat, ip: U64, p: Probe): seq<Item>
    requires ValidState(s) && ip in s.traces && n <= |ws.at|
  {
    if n < |ws.at| && Waits(s, ws, n) then [] else OutputItems(ip, Passed(s.traces[ip], Times(ws, n, ip)), p)
  }

  lemma ScanStops(s: State, ws: Words, n: nat, ip: U64, p: Probe)
    requires ValidState(s) && ip in s.traces && n <= |ws.at| && (n < |ws.at| ==> !Passes(s, ws, p, n))
    ensures ScanOver(StateAfter(s, ws, n, p), ws, n, ip, p).log == LogAfter(s, ws, n, p) + Last(s, ws, n, ip, p)
  {
    if n < |ws.at| {
      StopsOrGoes(s, ws, n, p);
    }
  }

  lemma {:induction false} ScanPasses(s: State, ws: Words, n: nat, ip: U64, p: Probe)
    requires ValidState(s) && ip in s.traces && n < |ws.at| && Passes(s, ws, p, n)
    ensures ScanOver(StateAfter(s, ws, n, p), ws, n, ip, p) == ScanOver(StateAfter(s, ws, n + 1, p), ws, n + 1, ip, p)
  {
    if Skipped(ws, ws.at[n]) {
      SkipOne(s, ws, n, p);
    } else {
      StopsOrGoes(s, ws, n, p);
      PassOne(s, ws, n, p);
    }
  }

  lemma {:induction false} ScanFrom(s: State, ws: Words, i: nat, n: nat, ip: U64, p: Probe, log: seq<Item>)
    requires ValidState(s) && ip in s.traces && i <= |ws.at| && n == Reach(s, ws, p, i)
    requires ScanOver(StateAfter(s, ws, i, p), ws, i, ip, p).log == log
    ensures ScanOver(StateAfter(s, ws, n, p), ws, n, ip, p).log == log
    decreases |ws.at| - i
  {
    if i < |ws.at| && Passes(s, ws, p, i) {
      assert n == Reach(s, ws, p, i + 1);
      ScanPasses(s, ws, i, ip, p);
      ScanFrom(s, ws, i + 1, n, ip, p, log);
    }
  }

  lemma AfterNone(s: State, ws: Words, p: Probe)
    requires ValidState(s)
    ensures StateAfter(s, ws, 0, p) == s
  {
    assert StateAfter(s, ws, 0, p).traces == s.traces;
  }

  lemma ScanPutsOut(s: State, ws: Words, ip: U64, p: Probe)
    requires ValidState(s) && ip in s.traces
    ensures var n := Reach(s, ws, p, 0);
      ScanOver(s, ws, 0, ip, p).log == LogAfter(s, ws, n, p) + Last(s, ws, n, ip, p)
  {
    var n := Reach(s, ws, p, 0);
    AfterNone(s, ws, p);
    ScanFrom(s, ws, 0, n, ip, p, ScanOver(s, ws, 0, ip, p).log);
    ScanStops(s, ws, n, ip, p);
  }

  // At the end of a chain an entry outputs exactly the data stashed by its task for the longest run
  // of callers from the bottom of the stack, in stack order, and then its own record; only
  // stashed data of another task stops it before that.
  lemma EntryOutputsCallers(s: State, ip: U64, p: Probe)
    requires ValidState(s) && ip in s.traces && p.task in s.stacks
    requires p.entry && s.traces[ip].spec.prevIp != 0 && s.traces[ip].spec.nextIp == 0
    requires !s.traces[ip].flags.stashed
    ensures var ws := Callers(s.stacks[p.task]);
      var n := Reach(s, ws, p, 0);
      Output(s, ip, p).log == LogAfter(s, ws, n, p)
        + if n < |ws.at| && Waits(s, ws, n) then [] else OutputItems(ip, s.traces[ip], p)
  {
    var ws := Callers(s.stacks[p.task]);
    CallersScan(s, ip, p, 0);
    ScanPutsOut(s, ws, ip, p);
    NeverPassed(s, ws, Reach(s, ws, p, 0), ip, p);
  }

  // A record that holds no stashed data is not passed on the way.
  lemma {:induction false} NeverPassed(s: State, ws: Words, n: nat, ip: U64, p: Probe)
    requires n <= |ws.at| && ip in s.traces && !s.traces[ip].flags.stashed
    requires forall j :: 0 <= j < n ==> Passes(s, ws, p, j)
    ensures Times(ws, n, ip) == 0
  {
    if n > 0 {
      NeverPassed(s, ws, n - 1, ip, p);
      assert Passes(s, ws, p, n - 1);
    }
  }

  // A return does the same over the words from the one past the end of the stack down to index 1,
  // without those that are zero; a record that was emitted on the way is not emitted again.
  lemma ReturnOutputsCallees(s: State, ip: U64, p: Probe)
    requires ValidState(s) && ip in s.traces && p.task in s.stacks
    requires !p.entry && s.traces[ip].spec.nextIp != 0 && s.traces[ip].spec.prevIp == 0
    ensures var ws := Callees(s.stacks[p.task], p);
      var n := Reach(s, ws, p, 0);
      Output(s, ip, p).log == LogAfter(s, ws, n, p) + Last(s, ws, n, ip, p)
  {
    CalleesScan(s, Callees(s.stacks[p.task], p), |s.stacks[p.task].ips|, 0, ip, p);
    ScanPutsOut(s, Callees(s.stacks[p.task], p), ip, p);
  }

  // Its record holds data, stashed and not marked STASH.
  predicate Plain(s: State, w: U64) {
    w in s.traces && s.traces[w].bufLen > 0 && s.traces[w].flags.stashed && !s.traces[w].flags.stash
  }

  // The events for the first n words, each followed by clearing its record.
  function EachOnce(s: State, ws: Words, n: nat): seq<Item>
    requires n <= |ws.at| && forall j :: 0 <= j < n ==> Plain(s, ws.at[j])
  {
    if n == 0 then []
    else
      assert Plain(s, ws.at[n - 1]);
      var w := ws.at[n - 1];
      EachOnce(s, ws, n - 1)
      + [Emitted(w, s.traces[w].(flags := s.traces[w].flags.(stashed := false))), Wiped(w)]
  }

  // The plain case: no function is on the stack twice and no stashed record is marked STASH. Then
  // each caller reached is emitted once, in stack order.
  lemma {:induction false} EachCallerOnce(s: State, ws: Words, p: Probe, n: nat)
    requires ValidState(s) && n <= |ws.at| && !ws.skipZero
    requires forall i, j :: 0 <= i < j < n ==> ws.at[i] != ws.at[j]
    requires forall j :: 0 <= j < n ==> Plain(s, ws.at[j])
    ensures LogAfter(s, ws, n, p) == s.log + EachOnce(s, ws, n)
  {
    if n > 0 {
      EachCallerOnce(s, ws, p, n - 1);
      NotBefore(ws, n - 1, ws.at[n - 1]);
      assert Plain(s, ws.at[n - 1]);
    }
  }

  lemma {:induction false} NotBefore(ws: Words, n: nat, w: U64)
    requires n <= |ws.at| && forall i :: 0 <= i < n ==> ws.at[i] != w
    ensures Times(ws, n, w) == 0
  {
    if n > 0 {
      NotBefore(ws, n - 1, w);
    }
  }
}
