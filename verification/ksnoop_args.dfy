// What the argument loop does with one argument, and what a predicate means to the user who
// wrote it.
module KsnoopArgs {
  import opened Machine
  import opened KsnoopStack
  import opened Ksnoop

  // ---------------------------------------------------------------------------
  // predicate_to_value
  // ---------------------------------------------------------------------------

  // `pred` is the run of the characters ! = > < that sscanf finds, and `number` the long after it;
  // the run is empty, or there is no number, where sscanf fails.
  function Compared(pred: string, number: Option<int>, val: Value): Result<Value> {
    if pred == "" || number.None? || (!val.ptr && (val.size == 0 || val.size > 8)) then Failed
    else
      var c := val.cmp.(against := Wrap64(number.value));
      if pred == "==" then Ok(val.(cmp := c.(eq := true)))
      else if pred == "!=" then Ok(val.(cmp := c.(noteq := true)))
      else
        var c' := if pred[0] == '>' then c.(gt := true) else if pred[0] == '<' then c.(lt := true) else c;
        if |pred| == 1 then Ok(val.(cmp := c'))
        else if pred[1] != '=' then Failed
        else Ok(val.(cmp := c'.(eq := true)))
  }

  method PredicateToValue(pred: string, number: Option<int>, val0: Value) returns (r: Result<Value>)
    ensures r == Compared(pred, number, val0)
  {
    var val := val0;
    if pred == "" || number.None? {
      return Failed;
    }
    if !val.ptr && (val.size == 0 || val.size > 8) {
      return Failed;
    }
    val := val.(cmp := val.cmp.(against := Wrap64(number.value)));
    if pred == "==" {
      val := val.(cmp := val.cmp.(eq := true));
      return Ok(val);
    } else if pred == "!=" {
      val := val.(cmp := val.cmp.(noteq := true));
      return Ok(val);
    }
    if pred[0] == '>' {
      val := val.(cmp := val.cmp.(gt := true));
    } else if pred[0] == '<' {
      val := val.(cmp := val.cmp.(lt := true));
    }
    if |pred| == 1 {
      return Ok(val);
    }
    if pred[1] != '=' {
      return Failed;
    }
    val := val.(cmp := val.cmp.(eq := true));
    return Ok(val);
  }

  // ---------------------------------------------------------------------------
  // The comparison that the user wrote
  // ---------------------------------------------------------------------------

  datatype Operator = Eq | Ne | Gt | Ge | Lt | Le

  function Spelling(op: Operator): string {
    match op
    case Eq => "=="
    case Ne => "!="
    case Gt => ">"
    case Ge => ">="
    case Lt => "<"
    case Le => "<="
  }

  predicate Compares(op: Operator, x: int, y: int) {
    match op
    case Eq => x == y
    case Ne => x != y
    case Gt => x > y
    case Ge => x >= y
    case Lt => x < y
    case Le => x <= y
  }

  predicate NoBits(c: Compare) {
    !c.eq && !c.noteq && !c.gt && !c.lt
  }

  // What the user asks of an argument.
  datatype Asked = Nothing | Test(op: Operator, number: int)

  // v is what user space makes of it.
  ghost predicate AsksFor(v: Value, a: Asked) {
    match a
    case Nothing => NoBits(v.cmp)
    case Test(op, number) =>
      exists val0: Value :: NoBits(val0.cmp) && Compared(Spelling(op), Some(number), val0) == Ok(v)
  }

  // The argument is one of the direction of the probe: of the five parameters at an entry, the
  // returned value at a return; and it is not void.
  predicate IsAsked(v: Value, entry: bool) {
    (if entry then v.baseArg in {0, 1, 2, 3, 4} else v.baseArg == 5) && (v.typeId != 0 || v.ptr)
  }

  // What it is compared by: a member that is a pointer as read, which may fail, any other member as
  // it is in memory, and an argument that is no member as it is in its register.
  function ComparedBy(v: Value, input: Input): Option<U64> {
    match (v.member, v.ptr)
    case (false, _) => Some(input.reg)
    case (true, true) => (match input.pointer case Got(value) => Some(value) case Fault(_) => None)
    case (true, false) => Some(input.memberRaw)
  }

  // The test can be made and fails. The number is taken as an unsigned one.
  predicate FoundFalse(v: Value, entry: bool, input: Input, a: Asked) {
    && a.Test? && IsAsked(v, entry) && ComparedBy(v, input).Some?
    && !Compares(a.op, ComparedBy(v, input).value, a.number % TWO64)
  }

  predicate ArgKind(v: Value) {
    v.baseArg <= 5
  }

  lemma BitsOf(op: Operator, number: int, val0: Value, v: Value)
    requires NoBits(val0.cmp) && Compared(Spelling(op), Some(number), val0) == Ok(v)
    ensures HasPredicate(v.cmp) && v.cmp.against == number % TWO64 && (v.ptr || v.size <= 8)
    ensures forall x: U64 :: Holds(v.cmp, x) <==> Compares(op, x, number % TWO64)
  {
    match op
    case Eq =>
    case Ne =>
    case Gt => assert ">"[0] == '>' && |">"| == 1;
    case Ge => assert ">="[0] == '>' && ">="[1] == '=' && |">="| == 2;
    case Lt => assert "<"[0] == '<' && |"<"| == 1;
    case Le => assert "<="[0] == '<' && "<="[1] == '=' && |"<="| == 2;
  }

  // A test is accepted of every pointer and of every value of 1 to 8 bytes, and of nothing else.
  lemma AcceptedExactly(op: Operator, number: int, val0: Value)
    ensures Compared(Spelling(op), Some(number), val0).Ok? <==> val0.ptr || 1 <= val0.size <= 8
  {
    match op
    case Eq =>
    case Ne =>
    case Gt => assert |">"| == 1;
    case Ge => assert |">="| == 2 && ">="[1] == '=';
    case Lt => assert |"<"| == 1;
    case Le => assert |"<="| == 2 && "<="[1] == '=';
  }

  // Two strings are accepted that no comparison is spelled by, and test nothing.
  lemma TestsNothingExactly(pred: string, number: int, val0: Value)
    requires (forall k :: 0 <= k < |pred| ==> pred[k] in {'!', '=', '>', '<'}) && NoBits(val0.cmp)
    requires Compared(pred, Some(number), val0).Ok?
    ensures NoBits(Compared(pred, Some(number), val0).value.cmp) <==> pred == "!" || pred == "="
  {
    if |pred| == 1 {
      assert pred == [pred[0]];
    }
  }

  // One argument ends the pass exactly when its test can be made and fails.
  lemma {:induction false} RejectedExactly(t: Trace, i: nat, entry: bool, input: Input, a: Asked)
    requires ValidTrace(t) && i < MAX_TRACES && ValidInput(input)
    requires ArgKind(t.spec.values[i]) && AsksFor(t.spec.values[i], a)
    ensures Argument(t, i, entry, input).Rejected? <==> FoundFalse(t.spec.values[i], entry, input, a)
  {
    var v := t.spec.values[i];
    if a.Test? {
      var val0: Value :| NoBits(val0.cmp) && Compared(Spelling(a.op), Some(a.number), val0) == Ok(v);
      BitsOf(a.op, a.number, val0, v);
    }
  }

  ghost predicate AllAsked(spec: Spec, asked: seq<Asked>) {
    && |spec.values| == |asked| == MAX_TRACES
    && forall i :: 0 <= i < MAX_TRACES ==> ArgKind(spec.values[i]) && AsksFor(spec.values[i], asked[i])
  }

  // And a pass over a cleared record is rejected exactly when some test that can be made fails.
  lemma {:induction false} PassRejectedExactly(t: Trace, p: Probe, asked: seq<Asked>)
    requires ValidTrace(t) && ValidProbe(p) && AllAsked(t.spec, asked)
    requires t.data == ZERO_DATA && t.bufLen == 0
    ensures Arguments(t, 0, p).Rejected? <==>
      exists i :: 0 <= i < MAX_TRACES && FoundFalse(t.spec.values[i], p.entry, p.inputs[i], asked[i])
  {
    assert Tiles(t, p, 0) && PredicatesHold(t.spec, p, 0);
    PassTiles(t, 0, p);
    forall i | 0 <= i < MAX_TRACES
      ensures FoundFalse(t.spec.values[i], p.entry, p.inputs[i], asked[i]) <==> PredicateFails(t.spec, p, i)
    {
      FailsExactly(t.spec, p, i, asked[i]);
    }
  }

  predicate PredicateFails(spec: Spec, p: Probe, i: nat)
    requires |spec.values| == MAX_TRACES && ValidProbe(p) && i < MAX_TRACES
  {
    && Selected(spec.values[i], p.entry) && Readable(spec.values[i], p.inputs[i]) && HasPredicate(spec.values[i].cmp)
    && !Holds(spec.values[i].cmp, Raw(spec.values[i], p.inputs[i], 0))
  }

  lemma FailsExactly(spec: Spec, p: Probe, i: nat, a: Asked)
    requires |spec.values| == MAX_TRACES && ValidProbe(p) && i < MAX_TRACES
    requires ArgKind(spec.values[i]) && AsksFor(spec.values[i], a)
    ensures FoundFalse(spec.values[i], p.entry, p.inputs[i], a) <==> PredicateFails(spec, p, i)
  {
    if a.Test? {
      var val0: Value :| NoBits(val0.cmp) && Compared(Spelling(a.op), Some(a.number), val0) == Ok(spec.values[i]);
      BitsOf(a.op, a.number, val0, spec.values[i]);
    }
  }

  // Tests on signed values are made on unsigned ones: they are right exactly when they are for
  // equality, or value and number have the same sign.
  lemma SignedExactly(op: Operator, x: int, number: int)
    requires -(TWO63 as int) <= x < TWO63 && -(TWO63 as int) <= number < TWO63
    ensures (Compares(op, x % TWO64, number % TWO64) <==> Compares(op, x, number)) <==>
      op.Eq? || op.Ne? || (x < 0 <==> number < 0)
  {
    assert x % TWO64 == if x < 0 then x + TWO64 else x;
    assert number % TWO64 == if number < 0 then number + TWO64 else number;
  }

  // ---------------------------------------------------------------------------
  // What is recorded of one argument
  // ---------------------------------------------------------------------------

  // n is the size that was asked for, but at most MAX_TRACE_DATA.
  predicate IsCopied(v: Value, n: nat) {
    n <= v.size && n <= 2048 && (n == v.size || n == 2048)
  }

  // An argument of the other direction, or void, leaves the record as it is; no other slot ever
  // changes; an error names the type and the code; the value compared is recorded; and the bytes
  // copied go to the end of the recorded data.
  lemma ArgumentRecords(t: Trace, i: nat, entry: bool, input: Input)
    requires ValidTrace(t) && i < MAX_TRACES && ValidInput(input) && ArgKind(t.spec.values[i])
    ensures var v, r := t.spec.values[i], Argument(t, i, entry, input);
      && r.t == t.(data := t.data[i := r.t.data[i]], bufLen := r.t.bufLen, buf := r.t.buf)
      && (!IsAsked(v, entry) ==> r == Next(t))
      && (IsAsked(v, entry) && ComparedBy(v, input).None? ==>
            r == Next(t.(data := t.data[i := t.data[i].(errTypeId := v.typeId, err := input.pointer.err)])))
      && (IsAsked(v, entry) && ComparedBy(v, input).Some? && (v.ptr || !v.member || v.size <= 8) ==>
            r.t.data[i].rawValue == ComparedBy(v, input).value)
      && (!r.Next? ==> r.t.buf == t.buf && r.t.bufLen == t.bufLen)
    ensures var v, r := t.spec.values[i], Argument(t, i, entry, input);
      r.Next? && IsAsked(v, entry) && ComparedBy(v, input).Some? ==>
        var slot := r.t.data[i];
        match input.copy
        case CopyFault(err) =>
          slot.err == err && slot.errTypeId == v.typeId && r.t.buf == t.buf && r.t.bufLen == t.bufLen
        case Bytes(bytes) =>
          && slot.bufOffset == t.bufLen && IsCopied(v, slot.bufLen) && r.t.bufLen == t.bufLen + slot.bufLen
          && r.t.buf[t.bufLen..r.t.bufLen] == bytes[..slot.bufLen]
  {
  }

  // It stops the loop, without failing a test, exactly when at most MAX_TRACE_DATA bytes are left.
  lemma FullExactly(t: Trace, i: nat, entry: bool, input: Input)
    requires ValidTrace(t) && i < MAX_TRACES && ValidInput(input) && ArgKind(t.spec.values[i])
    ensures var v, r := t.spec.values[i], Argument(t, i, entry, input);
      r.Full? <==> !r.Rejected? && IsAsked(v, entry) && ComparedBy(v, input).Some? && t.bufLen + 2048 >= 12288
  {
  }
}
