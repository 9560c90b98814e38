// The per-task stack of traced function addresses: pushed by an entry probe, popped by a
// return probe, and read one slot above or below the top to learn the caller or the callee.
module KsnoopStack {
  import opened Machine

  const MAX_DEPTH := 16
  const DEEPEST := 15

  datatype FuncStack = FuncStack(ips: seq<U64>, depth: U8)

  predicate ValidStack(fs: FuncStack) {
    |fs.ips| == MAX_DEPTH
  }

  const EMPTY_STACK := FuncStack([0, 0, 0, 0, 0, 0, 0, 0, 0, 0, 0, 0, 0, 0, 0, 0], 0)

  // What a probe learns: the address of its function, and the caller (at entry) or the last
  // function called (at return).
  datatype Outcome = Refused | Entered(ip: U64, lastIp: U64) | Left(ip: U64, lastIp: U64)

  datatype Step = Step(outcome: Outcome, stack: FuncStack)

  function Enter(fs: FuncStack, ip: U64): (s: Step)
    requires ValidStack(fs)
    ensures ValidStack(s.stack)
  {
    if fs.depth >= MAX_DEPTH - 1 then Step(Refused, fs)
    else
      // depth - 1 is a __u8, so it is 255 and out of the array when the stack is empty
      var below := (fs.depth + TWO8 - 1) % TWO8;
      var lastIp := if below < MAX_DEPTH then fs.ips[below] else 0;
      var pushed := fs.ips[fs.depth := ip];
      var depth := (fs.depth + 1) % MAX_DEPTH;
      Step(Entered(ip, lastIp), FuncStack(pushed[depth := 0], depth))
  }

  function Leave(fs: FuncStack): (s: Step)
    requires ValidStack(fs)
    ensures ValidStack(s.stack)
  {
    if fs.depth == 0 || fs.depth >= MAX_DEPTH then Step(Refused, fs)
    else
      var lastIp := fs.ips[fs.depth];
      var depth := (fs.depth - 1) % MAX_DEPTH;
      Step(Left(fs.ips[depth], lastIp), fs.(depth := depth))
  }

  datatype StackEvent = In(ip: U64) | Out

  function Handle(fs: FuncStack, e: StackEvent): (s: Step)
    requires ValidStack(fs)
    ensures ValidStack(s.stack)
  {
    match e
    case In(ip) => Enter(fs, ip)
    case Out => Leave(fs)
  }

  // The stack after a run of one task's probes.
  function StackAfter(fs: FuncStack, es: seq<StackEvent>): (r: FuncStack)
    requires ValidStack(fs)
    ensures ValidStack(r)
    decreases |es|
  {
    if es == [] then fs else StackAfter(Handle(fs, es[0]).stack, es[1..])
  }

  // What the probes of the run learn, one outcome each.
  function Outcomes(fs: FuncStack, es: seq<StackEvent>): (r: seq<Outcome>)
    requires ValidStack(fs)
    ensures |r| == |es|
    decreases |es|
  {
    if es == [] then [] else
      var s := Handle(fs, es[0]);
      [s.outcome] + Outcomes(s.stack, es[1..])
  }

  lemma {:induction false} RunAppend(fs: FuncStack, a: seq<StackEvent>, b: seq<StackEvent>)
    requires ValidStack(fs)
    ensures StackAfter(fs, a + b) == StackAfter(StackAfter(fs, a), b)
    ensures Outcomes(fs, a + b) == Outcomes(fs, a) + Outcomes(StackAfter(fs, a), b)
    decreases |a|
  {
    if a == [] {
      assert a + b == b;
    } else {
      assert (a + b)[0] == a[0] && (a + b)[1..] == a[1..] + b;
      RunAppend(Handle(fs, a[0]).stack, a[1..], b);
    }
  }

  lemma RunOne(fs: FuncStack, e: StackEvent)
    requires ValidStack(fs)
    ensures StackAfter(fs, [e]) == Handle(fs, e).stack
    ensures Outcomes(fs, [e]) == [Handle(fs, e).outcome]
  {
    assert [e][1..] == [];
  }

  // ---------------------------------------------------------------------------
  // The calls the task really makes
  // ---------------------------------------------------------------------------

  // A list of completed calls of traced functions: the first one, the calls it makes, and the
  // calls that its caller makes after it.
  datatype Calls = Done | Call(ip: U64, inner: Calls, next: Calls)

  function Nesting(c: Calls): nat {
    match c
    case Done => 0
    case Call(_, inner, next) => if 1 + Nesting(inner) > Nesting(next) then 1 + Nesting(inner) else Nesting(next)
  }

  // The probes that the calls trigger.
  function Probes(c: Calls): seq<StackEvent> {
    match c
    case Done => []
    case Call(ip, inner, next) => [In(ip)] + Probes(inner) + [Out] + Probes(next)
  }

  // The last function in the list; `before` when the list is empty.
  function LastCalled(c: Calls, before: U64): U64 {
    match c
    case Done => before
    case Call(ip, _, next) => LastCalled(next, ip)
  }

  // What the probes should learn, read off the calls alone: an entry learns its own function
  // and its immediate caller, a return its own function and the last function that one called.
  function Truth(c: Calls, caller: U64): seq<Outcome> {
    match c
    case Done => []
    case Call(ip, inner, next) =>
      [Entered(ip, caller)] + Truth(inner, ip) + [Left(ip, LastCalled(inner, 0))] + Truth(next, caller)
  }

  function Caller(fs: FuncStack): U64
    requires ValidStack(fs) && fs.depth <= DEEPEST
  {
    if fs.depth == 0 then 0 else fs.ips[fs.depth - 1]
  }

  lemma {:induction false} OneCall(fs: FuncStack, ip: U64, inner: Calls, next: Calls)
    requires ValidStack(fs)
    ensures var e := Enter(fs, ip);
      var i := StackAfter(e.stack, Probes(inner));
      var l := Leave(i);
      && StackAfter(fs, Probes(Call(ip, inner, next))) == StackAfter(l.stack, Probes(next))
      && Outcomes(fs, Probes(Call(ip, inner, next)))
         == [e.outcome] + Outcomes(e.stack, Probes(inner)) + [l.outcome] + Outcomes(l.stack, Probes(next))
  {
    var e := Enter(fs, ip);
    var i := StackAfter(e.stack, Probes(inner));
    RunOne(fs, In(ip));
    RunOne(i, Out);
    RunAppend(fs, [In(ip)], Probes(inner));
    RunAppend(fs, [In(ip)] + Probes(inner), [Out]);
    RunAppend(fs, [In(ip)] + Probes(inner) + [Out], Probes(next));
  }

  // The calls c left everything below the top alone, and the slot above it names their last.
  predicate Restored(fs: FuncStack, c: Calls, after: FuncStack)
    requires ValidStack(fs) && ValidStack(after) && fs.depth <= DEEPEST
  {
    && after.depth == fs.depth
    && after.ips[..fs.depth] == fs.ips[..fs.depth]
    && after.ips[fs.depth] == LastCalled(c, fs.ips[fs.depth])
  }

  lemma EnterPushes(fs: FuncStack, ip: U64)
    requires ValidStack(fs) && fs.depth < DEEPEST
    ensures var e := Enter(fs, ip);
      && e.outcome == Entered(ip, Caller(fs))
      && e.stack.depth == fs.depth + 1 && Caller(e.stack) == ip
      && e.stack.ips[..fs.depth] == fs.ips[..fs.depth]
      && e.stack.ips[fs.depth + 1] == 0
  {
  }

  lemma LeavePops(fs: FuncStack, ip: U64, inner: Calls, i: FuncStack)
    requires ValidStack(fs) && ValidStack(i) && fs.depth < DEEPEST
    requires Restored(Enter(fs, ip).stack, inner, i)
    ensures var l := Leave(i);
      && l.outcome == Left(ip, LastCalled(inner, 0))
      && l.stack.depth == fs.depth && Caller(l.stack) == Caller(fs)
      && l.stack.ips[..fs.depth] == fs.ips[..fs.depth]
      && l.stack.ips[fs.depth] == ip
  {
    var d := fs.depth;
    var e := Enter(fs, ip).stack;
    EnterPushes(fs, ip);
    assert i.ips[d] == i.ips[..d + 1][d] == e.ips[..d + 1][d];
    assert i.ips[..d] == i.ips[..d + 1][..d] == e.ips[..d + 1][..d] == e.ips[..d];
    if d > 0 {
      assert i.ips[d - 1] == i.ips[..d][d - 1] == fs.ips[..d][d - 1];
    }
  }

  lemma {:induction false} StackTellsTruth(fs: FuncStack, c: Calls)
    requires ValidStack(fs) && fs.depth + Nesting(c) <= DEEPEST
    ensures Outcomes(fs, Probes(c)) == Truth(c, Caller(fs))
    ensures Restored(fs, c, StackAfter(fs, Probes(c)))
    decreases c
  {
    match c
    case Done =>
    case Call(ip, inner, next) =>
      EnterPushes(fs, ip);
      var e := Enter(fs, ip).stack;
      StackTellsTruth(e, inner);
      var i := StackAfter(e, Probes(inner));
      LeavePops(fs, ip, inner, i);
      StackTellsTruth(Leave(i).stack, next);
      OneCall(fs, ip, inner, next);
  }

  lemma {:induction false} TooDeepIsRefused(fs: FuncStack, c: Calls)
    requires ValidStack(fs) && fs.depth <= DEEPEST < fs.depth + Nesting(c)
    ensures Refused in Outcomes(fs, Probes(c))
    decreases c
  {
    var Call(ip, inner, next) := c;
    var e := Enter(fs, ip);
    var i := StackAfter(e.stack, Probes(inner));
    if fs.depth < DEEPEST {
      EnterPushes(fs, ip);
      if fs.depth + 1 + Nesting(inner) > DEEPEST {
        TooDeepIsRefused(e.stack, inner);
      } else {
        StackTellsTruth(e.stack, inner);
        LeavePops(fs, ip, inner, i);
        TooDeepIsRefused(Leave(i).stack, next);
      }
    }
    OneCall(fs, ip, inner, next);
    InAnyPart(e.outcome, Outcomes(e.stack, Probes(inner)), Leave(i).outcome,
              Outcomes(Leave(i).stack, Probes(next)));
  }

  lemma InAnyPart(first: Outcome, a: seq<Outcome>, second: Outcome, b: seq<Outcome>)
    ensures Refused in [first] + a + [second] + b <==>
      first == Refused || Refused in a || second == Refused || Refused in b
  {
  }

  lemma {:induction false} TruthNeverRefuses(c: Calls, caller: U64)
    ensures Refused !in Truth(c, caller)
  {
    match c
    case Done =>
    case Call(ip, inner, next) =>
      TruthNeverRefuses(inner, ip);
      TruthNeverRefuses(next, caller);
  }

  // For every nested run of one task's calls: each return pops the address its own entry pushed
  // and every probe learns its real caller or callee, exactly when no more than 15 traced calls
  // are ever open at once.
  lemma StackExact(c: Calls)
    ensures Outcomes(EMPTY_STACK, Probes(c)) == Truth(c, 0) <==> Nesting(c) <= DEEPEST
  {
    if Nesting(c) <= DEEPEST {
      StackTellsTruth(EMPTY_STACK, c);
    } else {
      TooDeepIsRefused(EMPTY_STACK, c);
      TruthNeverRefuses(c, 0);
    }
  }

  // A run that is cut short has learnt a prefix of what the whole run learns.
  lemma {:induction false} CutShort(fs: FuncStack, es: seq<StackEvent>, k: nat)
    requires ValidStack(fs) && k < |es|
    ensures Handle(StackAfter(fs, es[..k]), es[k]).outcome == Outcomes(fs, es)[k]
  {
    assert es == es[..k] + ([es[k]] + es[k + 1..]);
    RunAppend(fs, es[..k], [es[k]] + es[k + 1..]);
    assert ([es[k]] + es[k + 1..])[1..] == es[k + 1..];
  }

  // ---------------------------------------------------------------------------
  // Many tasks
  // ---------------------------------------------------------------------------

  datatype TaskEvent = TaskEvent(task: U64, e: StackEvent)

  type Stacks = map<U64, FuncStack>

  predicate ValidStacks(stacks: Stacks) {
    forall t :: t in stacks ==> ValidStack(stacks[t])
  }

  // A task that was never seen has an empty stack.
  function StackOf(stacks: Stacks, task: U64): (fs: FuncStack)
    requires ValidStacks(stacks)
    ensures ValidStack(fs)
  {
    if task in stacks then stacks[task] else EMPTY_STACK
  }

  function StacksAfter(stacks: Stacks, es: seq<TaskEvent>): (r: Stacks)
    requires ValidStacks(stacks)
    ensures ValidStacks(r)
    decreases |es|
  {
    if es == [] then stacks
    else StacksAfter(stacks[es[0].task := Handle(StackOf(stacks, es[0].task), es[0].e).stack], es[1..])
  }

  function EventsOf(es: seq<TaskEvent>, task: U64): seq<StackEvent>
    decreases |es|
  {
    if es == [] then []
    else
      var later := EventsOf(es[1..], task);
      if es[0].task == task then [es[0].e] + later else later
  }

  // However the tasks interleave, each stack is what its own task's events alone make it.
  lemma {:induction false} TasksDoNotInterfere(stacks: Stacks, es: seq<TaskEvent>, task: U64)
    requires ValidStacks(stacks)
    ensures StackOf(StacksAfter(stacks, es), task) == StackAfter(StackOf(stacks, task), EventsOf(es, task))
    decreases |es|
  {
    if es != [] {
      var stacks' := stacks[es[0].task := Handle(StackOf(stacks, es[0].task), es[0].e).stack];
      TasksDoNotInterfere(stacks', es[1..], task);
      if es[0].task == task {
        assert EventsOf(es, task)[1..] == EventsOf(es[1..], task);
      } else {
        assert EventsOf(es, task) == EventsOf(es[1..], task);
      }
    }
  }
}
