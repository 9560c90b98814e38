// Latency histograms: the probes of fsdist.bpf.c fill them, print_hists of fsdist.c reads and
// clears them, print_log2_hist of trace_helpers.c prints them.
module FsDist {
  import opened Machine
  import opened Log2

  const F_MAX_OP: nat := 5
  const MAX_SLOTS: nat := 32

  // ReadHist and ClearHist are the two steps of print_hists on one histogram.
  datatype Event =
    | Entry(pid: U32, tid: U32, ts: U64)
    | Return(tid: U32, ts: U64, op: nat)
    | ReadHist(op: nat)
    | ClearHist(op: nat)

  datatype Config = Config(targetPid: U32, inMs: bool)

  // ---------------------------------------------------------------------------
  // What the histograms mean, by looking back over the events
  // ---------------------------------------------------------------------------

  function Front(h: seq<Event>): seq<Event>
    requires h != []
  {
    h[..|h| - 1]
  }

  function Last(h: seq<Event>): Event
    requires h != []
  {
    h[|h| - 1]
  }

  // When the call that a thread is in began: its last traced entry, if no return came since.
  function Began(c: Config, h: seq<Event>, tid: U32): Option<U64>
    decreases |h|
  {
    if h == [] then None
    else match Last(h)
      case Entry(pid, t, ts) =>
        if t == tid && (c.targetPid == 0 || c.targetPid == pid) then Some(ts) else Began(c, Front(h), tid)
      case Return(t, _, _) =>
        if t == tid then None else Began(c, Front(h), tid)
      case _ => Began(c, Front(h), tid)
  }

  // The latency that the last event reports for an operation, in the unit of the histogram. A
  // difference of 2^63 or more is negative as a signed number and is not reported.
  function Latency(c: Config, h: seq<Event>, op: nat): Option<U64>
    requires h != []
  {
    match Last(h)
    case Return(tid, ts, o) =>
      var began := Began(c, Front(h), tid);
      if o != op || o >= F_MAX_OP || began == None then None
      else
        var delta := Wrap64(ts - began.value);
        if delta >= TWO63 then None else Some(delta / (if c.inMs then 1000000 else 1000))
    case _ => None
  }

  // No traced entry of the thread and no return of it.
  predicate Elsewhere(c: Config, e: Event, tid: U32) {
    match e
    case Entry(pid, t, _) => t != tid || c.targetPid !in {0, pid}
    case Return(t, _, _) => t != tid
    case _ => true
  }

  // What may happen between the entry and the return of a call.
  ghost predicate InCall(c: Config, mid: seq<Event>, tid: U32) {
    forall k :: 0 <= k < |mid| ==> Elsewhere(c, mid[k], tid)
  }

  lemma {:induction false} BeganBefore(c: Config, before: seq<Event>, mid: seq<Event>, tid: U32)
    requires InCall(c, mid, tid)
    ensures Began(c, before + mid, tid) == Began(c, before, tid)
    decreases |mid|
  {
    if mid == [] {
      assert before + mid == before;
    } else {
      var n := |mid| - 1;
      assert Front(before + mid) == before + mid[..n];
      assert Elsewhere(c, mid[n], tid) && Last(before + mid) == mid[n];
      BeganBefore(c, before, mid[..n], tid);
    }
  }

  // A traced call, whatever other threads do meanwhile, is counted in the row of its time, in
  // milliseconds or in microseconds, rounded down, and in no other; and not at all if the clock went
  // back.
  lemma {:induction false} CallIsCounted(c: Config, before: seq<Event>, pid: U32, tid: U32, from: U64, mid: seq<Event>,
                                         to: U64, op: nat, o: nat, i: nat)
    requires InCall(c, mid, tid) && c.targetPid in {0, pid} && from <= to + TWO63 && to < from + TWO63
    requires o < 5 && i < MAX_SLOTS
    ensures var h := before + [Entry(pid, tid, from)] + mid + [Return(tid, to, op)];
      var time := if c.inMs then (to - from) / 1000000 else (to - from) / 1000;
      Count(c, h, o, i) == Count(c, Front(h), o, i) + if o == op && from <= to && InRow(time, i) then 1 else 0
  {
    var entered := before + [Entry(pid, tid, from)];
    var h := entered + mid + [Return(tid, to, op)];
    assert Front(h) == entered + mid && Front(entered) == before;
    BeganBefore(c, entered, mid, tid);
    if from <= to {
      WrapSmall(to - from);
      assert o == op ==> Latency(c, h, o) == Some(if c.inMs then (to - from) / 1000000 else (to - from) / 1000);
    } else {
      WrapMultiple(to - from + TWO64, -1);
      WrapSmall(to - from + TWO64);
      assert Latency(c, h, o) == None;
    }
  }

  // The range of values the printed table names for slot i; the last slot is open-ended.
  function Low(i: nat): nat {
    if i == 0 then 0 else Pow2(i)
  }

  function High(i: nat): nat {
    Pow2(i + 1) - 1
  }

  predicate InRow(v: nat, i: nat) {
    Low(i) <= v && (v <= High(i) || i == MAX_SLOTS - 1)
  }

  function SlotOf(v: nat): nat {
    if FloorLog2(v) >= MAX_SLOTS then MAX_SLOTS - 1 else FloorLog2(v)
  }

  // The rows partition the naturals: every value lies in one row, and that is its slot.
  lemma RowsPartition(v: nat, i: nat)
    requires i < MAX_SLOTS
    ensures InRow(v, i) <==> SlotOf(v) == i
  {
    if v > 0 {
      FloorLog2Exact(v);
      var f := FloorLog2(v);
      if f < i {
        Pow2Monotone(f + 1, i);
      } else if f > i {
        Pow2Monotone(i + 1, f);
      }
    }
  }

  predicate Reports(c: Config, h: seq<Event>, op: nat, i: nat)
    requires h != []
  {
    Latency(c, h, op).Some? && InRow(Latency(c, h, op).value, i)
  }

  // The returns of an operation in row i since its histogram was last cleared.
  function Count(c: Config, h: seq<Event>, op: nat, i: nat): nat
    decreases |h|
  {
    if h == [] || Last(h) == ClearHist(op) then 0
    else Count(c, Front(h), op, i) + if Reports(c, h, op, i) then 1 else 0
  }

  // ---------------------------------------------------------------------------
  // The program
  // ---------------------------------------------------------------------------

  class Program {
    const c: Config
    var starts: map<U32, U64>
    const hists: array2<U32>
    ghost var past: seq<Event>

    ghost predicate Valid()
      reads this, hists
    {
      && hists.Length0 == F_MAX_OP && hists.Length1 == MAX_SLOTS
      && (forall tid :: tid in starts <==> Began(c, past, tid).Some?)
      && (forall tid :: tid in starts ==> starts[tid] == Began(c, past, tid).value)
      && Counted(hists, c, past)
    }

    constructor (c: Config)
      ensures Valid() && past == [] && this.c == c && fresh(hists)
    {
      this.c, starts, past := c, map[], [];
      hists := new U32[F_MAX_OP, MAX_SLOTS]((_, _) => 0);
    }

    method ProbeEntry(pid: U32, tid: U32, ts: U64)
      requires Valid()
      modifies this
      ensures Valid() && past == old(past) + [Entry(pid, tid, ts)]
    {
      ghost var h := past + [Entry(pid, tid, ts)];
      assert Front(h) == past;
      NoReport(c, h);
      past := h;
      if c.targetPid != 0 && c.targetPid != pid {
        return;
      }
      starts := starts[tid := ts];
    }

    method ProbeReturn(tid: U32, ts: U64, op: nat)
      requires Valid()
      modifies this, hists
      ensures Valid() && past == old(past) + [Return(tid, ts, op)]
    {
      ghost var h := past + [Return(tid, ts, op)];
      assert Front(h) == past;
      if tid !in starts {
        NoReport(c, h);
        past := h;
        return;
      }
      if op < F_MAX_OP {
        var delta := Wrap64(ts - starts[tid]);
        if delta < TWO63 {
          if c.inMs {
            delta := delta / 1000000;
          } else {
            delta := delta / 1000;
          }
          assert Latency(c, h, op) == Some(delta);
          var slot := Log2l(delta);
          if slot >= MAX_SLOTS {
            slot := MAX_SLOTS - 1;
          }
          AddOne(op, slot, delta, h);
        } else {
          NoReport(c, h);
        }
      } else {
        NoReport(c, h);
      }
      past := h;
      starts := starts - {tid};
    }

    method AddOne(op: nat, slot: nat, ghost v: nat, ghost h: seq<Event>)
      requires hists.Length0 == F_MAX_OP && hists.Length1 == MAX_SLOTS && op < F_MAX_OP
      requires h != [] && Counted(hists, c, Front(h)) && Latency(c, h, op) == Some(v) && slot == SlotOf(v)
      modifies hists
      ensures Counted(hists, c, h)
    {
      hists[op, slot] := Wrap32(hists[op, slot] + 1);
      forall o: nat, i: nat | o < F_MAX_OP && i < MAX_SLOTS
        ensures hists[o, i] == Wrap32(Count(c, h, o, i))
      {
        RowsPartition(v, i);
        assert old(hists[o, i]) == Wrap32(Count(c, Front(h), o, i));
        assert Reports(c, h, o, i) <==> o == op && i == slot;
      }
    }

    // The first step on one histogram: copy it.
    method CopyHist(op: nat) returns (slots: seq<U32>)
      requires Valid() && op < F_MAX_OP
      modifies this`past
      ensures Valid() && past == old(past) + [ReadHist(op)]
      ensures |slots| == MAX_SLOTS && forall i :: 0 <= i < MAX_SLOTS ==> slots[i] == Wrap32(Count(c, old(past), op, i))
    {
      ghost var h := past + [ReadHist(op)];
      assert Front(h) == past;
      slots := [];
      for i := 0 to MAX_SLOTS
        invariant |slots| == i && forall k :: 0 <= k < i ==> slots[k] == hists[op, k]
      {
        slots := slots + [hists[op, i]];
      }
      NoReport(c, h);
      past := h;
    }

    // The second step: zero it.
    method ZeroHist(op: nat)
      requires Valid() && op < F_MAX_OP
      modifies this`past, hists
      ensures Valid() && past == old(past) + [ClearHist(op)]
    {
      ghost var h := past + [ClearHist(op)];
      assert Front(h) == past;
      NoReport(c, h);
      forall i | 0 <= i < MAX_SLOTS {
        hists[op, i] := 0;
      }
      past := h;
    }

    // print_hists with nothing between the two steps: every table shows what was counted since
    // the last one, row by row, and nothing is left behind.
    method PrintHists() returns (tables: seq<seq<Row>>)
      requires Valid()
      modifies this`past, hists
      ensures Valid() && |tables| == F_MAX_OP
      ensures forall op :: 0 <= op < F_MAX_OP ==> IsTable(c, old(past), op, tables[op])
      ensures forall op, i :: 0 <= op < F_MAX_OP && 0 <= i < MAX_SLOTS ==> Count(c, past, op, i) == 0
      ensures forall tid :: Began(c, past, tid) == Began(c, old(past), tid)
    {
      tables := [];
      ghost var was := past;
      for op := 0 to F_MAX_OP
        invariant Valid() && |tables| == op
        invariant forall o :: 0 <= o < op ==> IsTable(c, was, o, tables[o])
        invariant forall o, i :: 0 <= o < F_MAX_OP && 0 <= i < MAX_SLOTS ==>
          Count(c, past, o, i) == if o < op then 0 else Count(c, was, o, i)
        invariant forall tid :: Began(c, past, tid) == Began(c, was, tid)
      {
        ghost var before := past;
        var slots := CopyHist(op);
        assert Front(past) == before;
        NoReport(c, past);
        ghost var between := past;
        ZeroHist(op);
        assert Front(past) == between;
        NoReport(c, past);
        var rows := PrintLog2Hist(slots);
        tables := tables + [rows];
      }
    }
  }

  // ---------------------------------------------------------------------------
  // The printed table
  // ---------------------------------------------------------------------------

  datatype Row = Row(low: U64, high: U64, count: U32)

  // The rows up to the last nonzero slot, with their ranges.
  predicate Prints(vals: seq<U32>, rows: seq<Row>) {
    && |rows| <= |vals|
    && (forall i :: 0 <= i < |rows| ==> rows[i].low == Low(i) && rows[i].high == High(i) && rows[i].count == vals[i])
    && (forall i :: |rows| <= i < |vals| ==> vals[i] == 0)
    && (rows != [] ==> vals[|rows| - 1] > 0)
  }

  predicate IsTable(c: Config, h: seq<Event>, op: nat, rows: seq<Row>) {
    && |rows| <= MAX_SLOTS
    && (forall i :: 0 <= i < |rows| ==>
      rows[i].low == Low(i) && rows[i].high == High(i) && rows[i].count == Wrap32(Count(c, h, op, i)))
    && (forall i :: |rows| <= i < MAX_SLOTS ==> Wrap32(Count(c, h, op, i)) == 0)
  }

  lemma Pow2Below(i: nat)
    requires i < 64
    ensures Pow2(i) < TWO64
  {
    Pow2Monotone(i, 63);
    Pow2Values();
    Pow2Adds(32, 31);
    Pow2Adds(16, 15);
    Pow2Adds(8, 7);
  }

  // The loops of print_log2_hist. With 63 slots or fewer no shift leaves 64 bits.
  method PrintLog2Hist(vals: seq<U32>) returns (rows: seq<Row>)
    requires |vals| < 64
    ensures Prints(vals, rows)
  {
    var idxMax := -1;
    for i := 0 to |vals|
      invariant -1 <= idxMax < i
      invariant forall k :: idxMax < k < i ==> vals[k] == 0
      invariant idxMax >= 0 ==> vals[idxMax] > 0
    {
      if vals[i] > 0 {
        idxMax := i;
      }
    }
    rows := [];
    if idxMax < 0 {
      return;
    }
    for i := 0 to idxMax + 1
      invariant |rows| == i
      invariant forall k :: 0 <= k < i ==> rows[k].low == Low(k) && rows[k].high == High(k) && rows[k].count == vals[k]
    {
      Pow2Below(i + 1);
      var low := Pow2(i + 1) / 2;
      var high := Pow2(i + 1) - 1;
      if low == high {
        low := low - 1;
      }
      rows := rows + [Row(low, high, vals[i])];
    }
  }

  // ---------------------------------------------------------------------------
  // Reading while the probes run
  // ---------------------------------------------------------------------------

  // Between the copy and the clearing of an operation's histogram?
  predicate InGap(h: seq<Event>, op: nat)
    decreases |h|
  {
    h != [] && (Last(h) == ReadHist(op) || (Last(h) != ClearHist(op) && InGap(Front(h), op)))
  }

  // The reader copies and clears in turn.
  predicate Alternating(h: seq<Event>, op: nat)
    decreases |h|
  {
    h == [] || (
      && Alternating(Front(h), op)
      && (Last(h) == ReadHist(op) ==> !InGap(Front(h), op))
      && (Last(h) == ClearHist(op) ==> InGap(Front(h), op)))
  }

  // All returns of an operation in a row, whatever was cleared.
  function Total(c: Config, h: seq<Event>, op: nat, i: nat): nat
    decreases |h|
  {
    if h == [] then 0
    else Total(c, Front(h), op, i) + if Reports(c, h, op, i) then 1 else 0
  }

  // What all copies taken so far showed for a row.
  function Shown(c: Config, h: seq<Event>, op: nat, i: nat): nat
    decreases |h|
  {
    if h == [] then 0
    else Shown(c, Front(h), op, i) + if Last(h) == ReadHist(op) then Count(c, Front(h), op, i) else 0
  }

  // The returns that came between a copy and the clearing after it.
  function Lost(c: Config, h: seq<Event>, op: nat, i: nat): nat
    decreases |h|
  {
    if h == [] then 0
    else Lost(c, Front(h), op, i) + if InGap(Front(h), op) && Reports(c, h, op, i) then 1 else 0
  }

  // Every return is shown once, still waiting, or lost; and exactly those are lost that came
  // between a copy and its clearing.
  lemma {:induction false} ReturnsAreConserved(c: Config, h: seq<Event>, op: nat, i: nat)
    requires Alternating(h, op)
    ensures Total(c, h, op, i)
         == Shown(c, h, op, i) + Lost(c, h, op, i) + if InGap(h, op) then 0 else Count(c, h, op, i)
    decreases |h|
  {
    if h != [] {
      ReturnsAreConserved(c, Front(h), op, i);
    }
  }

  ghost predicate Counted(hists: array2<U32>, c: Config, h: seq<Event>)
    requires hists.Length0 == F_MAX_OP && hists.Length1 == MAX_SLOTS
    reads hists
  {
    forall o: nat, i: nat :: o < F_MAX_OP && i < MAX_SLOTS ==> hists[o, i] == Wrap32(Count(c, h, o, i))
  }

  // An event that reports nothing changes no count, unless it clears.
  lemma NoReport(c: Config, h: seq<Event>)
    requires h != [] && forall o :: 0 <= o < F_MAX_OP ==> Latency(c, h, o) == None
    ensures forall o: nat, i: nat :: o < F_MAX_OP ==>
      Count(c, h, o, i) == if Last(h) == ClearHist(o) then 0 else Count(c, Front(h), o, i)
  {
  }
}
