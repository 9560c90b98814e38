// The ksnoop program on one CPU: per-function trace records, gated by the task's call stack,
// filled from the arguments, and emitted, or stashed until a later probe emits them.
module Ksnoop {
  import opened Machine
  import opened KsnoopStack

  const MAX_TRACES := 6
  const MAX_TRACE_DATA := 2048
  const MAX_TRACE_BUF := 12288
  const KSNOOP_RETURN := 5

  // What user space asks for one argument. `cmp` holds the predicate bits of its flags.
  datatype Compare = Compare(eq: bool, noteq: bool, gt: bool, lt: bool, against: U64)

  datatype Value = Value(baseArg: nat, size: U32, typeId: U32, ptr: bool, member: bool, cmp: Compare)

  // The part of struct trace that is read-only while tracing. `stash` is the STASH bit of flags.
  datatype Spec = Spec(prevIp: U64, nextIp: U64, filterPid: U32, stash: bool, values: seq<Value>)

  datatype Slot = Slot(rawValue: U64, errTypeId: U32, err: int, bufOffset: nat, bufLen: nat)

  // The four bits of data_flags.
  datatype Flags = Flags(entry: bool, ret: bool, stash: bool, stashed: bool)

  const ZERO_SLOT := Slot(0, 0, 0, 0, 0)
  const ZERO_DATA := [ZERO_SLOT, ZERO_SLOT, ZERO_SLOT, ZERO_SLOT, ZERO_SLOT, ZERO_SLOT]
  const NO_FLAGS := Flags(false, false, false, false)

  datatype Trace = Trace(spec: Spec, task: U64, pid: U32, time: U64, flags: Flags,
                         data: seq<Slot>, bufLen: nat, buf: seq<U8>)

  // What the probed memory holds for one argument: the register, the pointer read through it,
  // the member's bytes as a number, and MAX_TRACE_DATA bytes at the address to copy from.
  datatype Read = Got(value: U64) | Fault(err: int)
  datatype Copy = Bytes(bytes: seq<U8>) | CopyFault(err: int)
  datatype Input = Input(reg: U64, pointer: Read, memberRaw: U64, copy: Copy)

  // One firing of a probe. `ip` is the fixed-up address at entry. `beyond` is the word that the
  // return scan reads one past the end of ips.
  datatype Probe = Probe(entry: bool, task: U64, ip: U64, pid: U32, time: U64, beyond: U64, inputs: seq<Input>)

  predicate ValidInput(input: Input) {
    && (input.copy.Bytes? ==> |input.copy.bytes| == MAX_TRACE_DATA)
    && (input.copy.CopyFault? ==> input.copy.err < 0)
    && (input.pointer.Fault? ==> input.pointer.err != 0)
  }

  predicate ValidProbe(p: Probe) {
    |p.inputs| == MAX_TRACES && forall i :: 0 <= i < MAX_TRACES ==> ValidInput(p.inputs[i])
  }

  predicate ValidTrace(t: Trace) {
    && |t.spec.values| == MAX_TRACES && |t.data| == MAX_TRACES && |t.buf| == MAX_TRACE_BUF
    && t.bufLen < MAX_TRACE_BUF
  }

  // A slot without an error describes a slice of the recorded part of the buffer.
  predicate Recorded(s: Slot, bufLen: nat) {
    s.err == 0 ==> s.bufOffset + s.bufLen <= bufLen
  }

  predicate Apart(a: Slot, b: Slot) {
    a.err == 0 && b.err == 0 && a.bufLen > 0 && b.bufLen > 0 ==>
      a.bufOffset + a.bufLen <= b.bufOffset || b.bufOffset + b.bufLen <= a.bufOffset
  }

  // All slices without an error are recorded and no two of them overlap.
  predicate Sliced(t: Trace)
    requires ValidTrace(t)
  {
    && (forall i :: 0 <= i < MAX_TRACES ==> Recorded(t.data[i], t.bufLen))
    && (forall i, j :: 0 <= i < j < MAX_TRACES ==> Apart(t.data[i], t.data[j]))
  }

  function Cleared(t: Trace): (r: Trace)
    requires ValidTrace(t)
    ensures ValidTrace(r)
  {
    t.(data := ZERO_DATA, flags := NO_FLAGS, bufLen := 0)
  }

  lemma ClearedIsSliced(t: Trace)
    requires ValidTrace(t)
    ensures Sliced(Cleared(t))
  {
  }

  // ---------------------------------------------------------------------------
  // The argument loop
  // ---------------------------------------------------------------------------

  predicate Selected(v: Value, entry: bool) {
    entry == (v.baseArg != KSNOOP_RETURN) && !(v.typeId == 0 && !v.ptr)
  }

  predicate Readable(v: Value, input: Input) {
    v.member && v.ptr ==> input.pointer.Got?
  }

  // The raw value of an argument; `before` when the code does not read one.
  function Raw(v: Value, input: Input, before: U64): U64
    requires Readable(v, input)
  {
    if !v.member then input.reg
    else if v.ptr then input.pointer.value
    else if v.size <= 8 then input.memberRaw
    else before
  }

  predicate HasPredicate(c: Compare) {
    c.eq || c.noteq || c.gt || c.lt
  }

  predicate Holds(c: Compare, raw: U64) {
    || (c.eq && raw == c.against) || (c.noteq && raw != c.against)
    || (c.gt && raw > c.against) || (c.lt && raw < c.against)
  }

  function CopySize(v: Value): nat {
    if v.size > MAX_TRACE_DATA then MAX_TRACE_DATA else v.size
  }

  // One argument: go on, stop because the buffer may not hold another, or fail a predicate.
  datatype ArgResult = Next(t: Trace) | Full(t: Trace) | Rejected(t: Trace)

  function WithSlot(t: Trace, i: nat, s: Slot): Trace
    requires i < |t.data|
  {
    t.(data := t.data[i := s])
  }

  function Fill(t: Trace, i: nat, v: Value, copy: Copy): Trace
    requires i < |t.data| && t.bufLen + MAX_TRACE_DATA <= |t.buf|
    requires copy.Bytes? ==> |copy.bytes| == MAX_TRACE_DATA
  {
    var s := t.data[i].(bufOffset := t.bufLen);
    match copy
    case CopyFault(err) => WithSlot(t, i, s.(errTypeId := v.typeId, err := err))
    case Bytes(bytes) =>
      var n := CopySize(v);
      WithSlot(t, i, s.(bufLen := n)).(
        buf := t.buf[..t.bufLen] + bytes[..n] + t.buf[t.bufLen + n..],
        bufLen := t.bufLen + n)
  }

  function Argument(t: Trace, i: nat, entry: bool, input: Input): (r: ArgResult)
    requires ValidTrace(t) && i < MAX_TRACES && ValidInput(input)
    ensures ValidTrace(r.t) && r.t.spec == t.spec && r.t.flags == t.flags
  {
    var v := t.spec.values[i];
    if !Selected(v, entry) then Next(t)
    else if !Readable(v, input) then
      Next(WithSlot(t, i, t.data[i].(errTypeId := v.typeId, err := input.pointer.err)))
    else
      var raw := Raw(v, input, t.data[i].rawValue);
      var t' := WithSlot(t, i, t.data[i].(rawValue := raw));
      if HasPredicate(v.cmp) && !Holds(v.cmp, raw) then Rejected(t')
      else if t.bufLen + MAX_TRACE_DATA >= MAX_TRACE_BUF then Full(t')
      else Next(Fill(t', i, v, input.copy))
  }

  function Arguments(t: Trace, i: nat, p: Probe): (r: ArgResult)
    requires ValidTrace(t) && i <= MAX_TRACES && ValidProbe(p)
    ensures ValidTrace(r.t) && r.t.spec == t.spec && r.t.flags == t.flags
    decreases MAX_TRACES - i
  {
    if i == MAX_TRACES then Next(t)
    else
      var r := Argument(t, i, p.entry, p.inputs[i]);
      if r.Next? then Arguments(r.t, i + 1, p) else r
  }

  lemma ArgumentKeepsData(t: Trace, i: nat, entry: bool, input: Input)
    requires ValidTrace(t) && i < MAX_TRACES && ValidInput(input)
    ensures var r := Argument(t, i, entry, input).t;
      && (Sliced(t) ==> Sliced(r))
      && t.bufLen <= r.bufLen && r.buf[..t.bufLen] == t.buf[..t.bufLen]
  {
    var r := Argument(t, i, entry, input).t;
    if Sliced(t) {
      forall j | 0 <= j < MAX_TRACES
        ensures Recorded(r.data[j], r.bufLen)
      {
        assert Recorded(t.data[j], t.bufLen);
      }
      forall j, k | 0 <= j < k < MAX_TRACES
        ensures Apart(r.data[j], r.data[k])
      {
        assert Apart(t.data[j], t.data[k]);
        assert Recorded(t.data[j], t.bufLen) && Recorded(t.data[k], t.bufLen);
      }
    }
  }

  // Every pass, also one that appends to stashed data, keeps the slices recorded and apart, and
  // leaves the data recorded earlier where it is.
  lemma {:induction false} PassKeepsData(t: Trace, i: nat, p: Probe)
    requires ValidTrace(t) && i <= MAX_TRACES && ValidProbe(p)
    ensures var r := Arguments(t, i, p).t;
      && (Sliced(t) ==> Sliced(r))
      && t.bufLen <= r.bufLen && r.buf[..t.bufLen] == t.buf[..t.bufLen]
    decreases MAX_TRACES - i
  {
    if i < MAX_TRACES {
      ArgumentKeepsData(t, i, p.entry, p.inputs[i]);
      var r := Argument(t, i, p.entry, p.inputs[i]);
      if r.Next? {
        PassKeepsData(r.t, i + 1, p);
        var last := Arguments(r.t, i + 1, p).t;
        assert last.buf[..t.bufLen] == last.buf[..r.t.bufLen][..t.bufLen];
        assert r.t.buf[..t.bufLen] == r.t.buf[..r.t.bufLen][..t.bufLen];
      }
    }
  }

  // ---------------------------------------------------------------------------
  // What one pass over a cleared trace records
  // ---------------------------------------------------------------------------

  predicate Copied(v: Value, entry: bool, input: Input) {
    Selected(v, entry) && Readable(v, input) && input.copy.Bytes?
  }

  // The bytes that argument i contributes.
  function Chunk(spec: Spec, p: Probe, i: nat): seq<U8>
    requires |spec.values| == MAX_TRACES && ValidProbe(p) && i < MAX_TRACES
  {
    if Copied(spec.values[i], p.entry, p.inputs[i]) then p.inputs[i].copy.bytes[..CopySize(spec.values[i])] else []
  }

  function Chunks(spec: Spec, p: Probe, n: nat): (r: seq<U8>)
    requires |spec.values| == MAX_TRACES && ValidProbe(p) && n <= MAX_TRACES
    ensures |r| <= n * MAX_TRACE_DATA
  {
    if n == 0 then [] else Chunks(spec, p, n - 1) + Chunk(spec, p, n - 1)
  }

  // Slots 0..n of t tile its buffer in index order.
  ghost predicate Tiles(t: Trace, p: Probe, n: nat)
    requires ValidTrace(t) && ValidProbe(p) && n <= MAX_TRACES
  {
    && t.bufLen == |Chunks(t.spec, p, n)|
    && t.buf[..t.bufLen] == Chunks(t.spec, p, n)
    && (forall i :: 0 <= i < n && Copied(t.spec.values[i], p.entry, p.inputs[i]) ==>
          t.data[i].bufOffset == |Chunks(t.spec, p, i)| && t.data[i].bufLen == |Chunk(t.spec, p, i)|)
    && (forall i :: n <= i < MAX_TRACES ==> t.data[i] == ZERO_SLOT)
  }

  // Every predicate on the arguments of this probe that could be evaluated holds.
  ghost predicate PredicatesHold(spec: Spec, p: Probe, n: nat)
    requires |spec.values| == MAX_TRACES && ValidProbe(p) && n <= MAX_TRACES
  {
    forall i :: 0 <= i < n && Selected(spec.values[i], p.entry) && Readable(spec.values[i], p.inputs[i])
                && HasPredicate(spec.values[i].cmp) ==>
      Holds(spec.values[i].cmp, Raw(spec.values[i], p.inputs[i], 0))
  }

  lemma ArgumentTiles(t: Trace, i: nat, p: Probe)
    requires ValidTrace(t) && ValidProbe(p) && i < MAX_TRACES && Tiles(t, p, i)
    requires Argument(t, i, p.entry, p.inputs[i]).Next?
    ensures Tiles(Argument(t, i, p.entry, p.inputs[i]).t, p, i + 1)
  {
    var r := Argument(t, i, p.entry, p.inputs[i]).t;
    var before, chunk := Chunks(t.spec, p, i), Chunk(t.spec, p, i);
    assert Chunks(t.spec, p, i + 1) == before + chunk;
    assert r.buf[..r.bufLen] == before + chunk;
  }

  // From a cleared trace, a pass that is not rejected lays the copied slices down one after the
  // other in index order; it stops early only at the last argument, when the five before it
  // have filled 10240 bytes; and it is rejected exactly when an evaluated predicate fails.
  lemma {:induction false} PassTiles(t: Trace, i: nat, p: Probe)
    requires ValidTrace(t) && ValidProbe(p) && i <= MAX_TRACES
    requires Tiles(t, p, i) && PredicatesHold(t.spec, p, i)
    ensures var r := Arguments(t, i, p);
      && (r.Next? ==> Tiles(r.t, p, MAX_TRACES))
      && (r.Full? ==> r.t.bufLen == |Chunks(t.spec, p, MAX_TRACES - 1)| == 10240
                      && r.t.buf[..r.t.bufLen] == Chunks(t.spec, p, MAX_TRACES - 1))
      && (r.Rejected? <==> !PredicatesHold(t.spec, p, MAX_TRACES))
    decreases MAX_TRACES - i
  {
    if i < MAX_TRACES {
      var r := Argument(t, i, p.entry, p.inputs[i]);
      if r.Next? {
        ArgumentTiles(t, i, p);
        PassTiles(r.t, i + 1, p);
      }
    }
  }

  lemma ClearedTiles(t: Trace, p: Probe)
    requires ValidTrace(t) && ValidProbe(p)
    ensures Tiles(Cleared(t), p, 0) && PredicatesHold(t.spec, p, 0)
  {
  }
}
