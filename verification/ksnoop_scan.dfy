// The scans over the stack at the end of a chain, and one step of them.
module KsnoopScan {
  import opened Machine
  import opened KsnoopStack
  import opened Ksnoop
  import opened KsnoopRun

  // ---------------------------------------------------------------------------
  // Both scans walk a list of words
  // ---------------------------------------------------------------------------

  // The words that a scan looks at, in order, and whether it passes over those that are zero.
  datatype Words = Words(at: seq<U64>, skipZero: bool)

  predicate Skipped(ws: Words, w: U64) {
    ws.skipZero && w == 0
  }

  // From word i on: passes over words whose records hold data stashed by the task, then comes to
  // the record at ip; data of another task ends it at once.
  function ScanOver(s: State, ws: Words, i: nat, ip: U64, p: Probe): State
    requires ValidState(s) && ip in s.traces && i <= |ws.at|
    decreases |ws.at| - i
  {
    match ScanNext(s, ws, i, p)
    case Finish => OutputTrace(s, ip, p)
    case Skip => ScanOver(s, ws, i + 1, ip, p)
    case Stop => s
    case Pass => ScanOver(OutputTrace(s, ws.at[i], p), ws, i + 1, ip, p)
  }

  datatype Advance = Finish | Skip | Stop | Pass

  function ScanNext(s: State, ws: Words, i: nat, p: Probe): (n: Advance)
    requires i <= |ws.at|
    ensures n.Skip? || n.Pass? ==> i < |ws.at|
    ensures n.Pass? ==> ws.at[i] in s.traces
  {
    if i == |ws.at| then Finish
    else
      var w := ws.at[i];
      if Skipped(ws, w) then Skip
      else if w !in s.traces || !s.traces[w].flags.stashed then Finish
      else if s.traces[w].task != p.task then Stop
      else Pass
  }

  // At an entry: the callers from the bottom of the stack up, without the function itself.
  function Callers(fs: FuncStack): Words
    requires ValidStack(fs)
  {
    Words(if fs.depth == 0 then [] else fs.ips[..if fs.depth <= MAX_DEPTH then fs.depth - 1 else MAX_DEPTH], false)
  }

  lemma {:induction false} CallersScan(s: State, ip: U64, p: Probe, i: nat)
    requires ValidState(s) && ip in s.traces && p.task in s.stacks
    requires i <= |Callers(s.stacks[p.task]).at|
    ensures OutputCallers(s, ip, p, i) == ScanOver(s, Callers(s.stacks[p.task]), i, ip, p)
    decreases MAX_DEPTH - i
  {
    var ws := Callers(s.stacks[p.task]);
    if i < |ws.at| {
      assert ws.at[i] == s.stacks[p.task].ips[i];
      if CallerAt(s, p, i).Go? {
        CallersScan(OutputTrace(s, ws.at[i], p), ip, p, i + 1);
      }
    }
  }

  // At a return: the word past the end of the stack, then the stack from its end down to index 1.
  function Callees(fs: FuncStack, p: Probe): (ws: Words)
    requires ValidStack(fs)
    ensures |ws.at| == MAX_DEPTH
    ensures forall k :: 0 <= k < MAX_DEPTH ==> ws.at[k] == CalleeWord(fs, p, k)
  {
    Words(seq(MAX_DEPTH, k requires 0 <= k < MAX_DEPTH => CalleeWord(fs, p, k)), true)
  }

  function CalleeWord(fs: FuncStack, p: Probe, k: nat): U64
    requires ValidStack(fs) && k < MAX_DEPTH
  {
    if k == 0 then p.beyond else fs.ips[MAX_DEPTH - k]
  }

  lemma CalleesStep(s: State, ip: U64, p: Probe, i: nat, w: U64)
    requires ValidState(s) && ip in s.traces && p.task in s.stacks && 0 < i <= MAX_DEPTH && w == StackWord(s, p, i)
    ensures OutputCallees(s, ip, p, i) ==
      if w == 0 then OutputCallees(s, ip, p, i - 1)
      else if w !in s.traces || !s.traces[w].flags.stashed then OutputTrace(s, ip, p)
      else if s.traces[w].task != p.task then s
      else OutputCallees(OutputTrace(s, w, p), ip, p, i - 1)
  {
  }

  lemma {:induction false} CalleesScan(s: State, ws: Words, i: nat, k: nat, ip: U64, p: Probe)
    requires ValidState(s) && ip in s.traces && p.task in s.stacks
    requires ws == Callees(s.stacks[p.task], p) && i + k == MAX_DEPTH
    ensures OutputCallees(s, ip, p, i) == ScanOver(s, ws, k, ip, p)
    decreases i
  {
    if i > 0 {
      var w := ws.at[k];
      assert w == StackWord(s, p, i);
      CalleesStep(s, ip, p, i, w);
      var next := ScanNext(s, ws, k, p);
      if next.Skip? || next.Pass? {
        var s' := if next.Skip? then s else OutputTrace(s, w, p);
        CalleesScan(s', ws, i - 1, k + 1, ip, p);
      }
    }
  }

  // ---------------------------------------------------------------------------
  // What a scan puts out
  // ---------------------------------------------------------------------------

  // How often a scan has come to w with the first n words.
  function Times(ws: Words, n: nat, w: U64): nat
    requires n <= |ws.at|
  {
    if n == 0 || Skipped(ws, w) then 0 else Times(ws, n - 1, w) + if ws.at[n - 1] == w then 1 else 0
  }

  // How often a scan can pass stashed data: it is put out the first time, but a record that is
  // also marked STASH is only unmarked the first time.
  function Turns(t: Trace): nat {
    if t.flags.stash && t.bufLen > 0 then 2 else 1
  }

  // Word j still has data stashed when the scan comes to it.
  predicate Waits(s: State, ws: Words, j: nat)
    requires j < |ws.at|
  {
    var w := ws.at[j];
    w in s.traces && s.traces[w].flags.stashed && Times(ws, j, w) < Turns(s.traces[w])
  }

  // The scan passes word j: it is skipped, or waits and belongs to the task.
  predicate Passes(s: State, ws: Words, p: Probe, j: nat)
    requires j < |ws.at|
  {
    Skipped(ws, ws.at[j]) || (Waits(s, ws, j) && s.traces[ws.at[j]].task == p.task)
  }

  // A record after a scan has passed it c times.
  function Passed(t: Trace, c: nat): Trace
    requires ValidTrace(t)
  {
    if c == 0 then t else if c < Turns(t) then t.(flags := t.flags.(stash := false)) else Cleared(t)
  }

  // What happens to the record under word j when the scan passes it.
  function ItemsAt(s: State, ws: Words, j: nat, p: Probe): seq<Item>
    requires ValidState(s) && j < |ws.at|
  {
    var w := ws.at[j];
    if Skipped(ws, w) || w !in s.traces then [] else OutputItems(w, Passed(s.traces[w], Times(ws, j, w)), p)
  }

  // The log after the first n words.
  function LogAfter(s: State, ws: Words, n: nat, p: Probe): seq<Item>
    requires ValidState(s) && n <= |ws.at|
  {
    if n == 0 then s.log else LogAfter(s, ws, n - 1, p) + ItemsAt(s, ws, n - 1, p)
  }

  // The state after a scan has passed the first n words.
  function StateAfter(s: State, ws: Words, n: nat, p: Probe): (r: State)
    requires ValidState(s) && n <= |ws.at|
    ensures ValidState(r) && forall w :: w in r.traces <==> w in s.traces
  {
    State(s.stacks, map w | w in s.traces :: Passed(s.traces[w], Times(ws, n, w)), LogAfter(s, ws, n, p))
  }

  lemma PassOne(s: State, ws: Words, n: nat, p: Probe)
    requires ValidState(s) && n < |ws.at| && Waits(s, ws, n) && !Skipped(ws, ws.at[n])
    ensures StateAfter(s, ws, n + 1, p) == OutputTrace(StateAfter(s, ws, n, p), ws.at[n], p)
  {
    var w := ws.at[n];
    var r, r' := StateAfter(s, ws, n, p), StateAfter(s, ws, n + 1, p);
    assert r'.traces[w] == Outputted(r.traces[w]);
    assert r'.traces == r.traces[w := Outputted(r.traces[w])];
  }

  lemma SkipOne(s: State, ws: Words, n: nat, p: Probe)
    requires ValidState(s) && n < |ws.at| && Skipped(ws, ws.at[n])
    ensures StateAfter(s, ws, n + 1, p) == StateAfter(s, ws, n, p)
  {
    forall w | w in s.traces
      ensures Times(ws, n + 1, w) == Times(ws, n, w)
    {
    }
  }

  // Cleared data is not marked, so the scan stops where a word waits no longer.
  lemma StopsOrGoes(s: State, ws: Words, n: nat, p: Probe)
    requires ValidState(s) && n < |ws.at|
    ensures var r, w := StateAfter(s, ws, n, p), ws.at[n];
      && (Waits(s, ws, n) <==> w in r.traces && r.traces[w].flags.stashed)
      && (w in s.traces ==> r.traces[w].task == s.traces[w].task)
  {
  }
}
