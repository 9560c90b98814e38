// execsnoop: the arguments of an exec packed into one buffer in the kernel, and printed in user
// space.
module Execsnoop {
  import opened Machine

  const ARGSIZE := 128
  const TOTAL_MAX_ARGS := 60
  const FULL_MAX_ARGS_ARR := 7680
  const LAST_ARG := 7552

  // A pointer of user space: null, or to memory that cannot be read, or to a string.
  datatype Arg = Null | Unreadable | Str(s: string)

  predicate CArg(a: Arg) {
    a.Str? ==> CString(a.s)
  }

  // The argument vector ends with a null pointer.
  function ArgAt(argv: seq<Arg>, i: nat): Arg {
    if i < |argv| then argv[i] else Null
  }

  // What fits into ARGSIZE bytes together with the final NUL.
  function Cut(s: string): string {
    if |s| > ARGSIZE - 1 then s[..ARGSIZE - 1] else s
  }

  // The whole string, or its first 127 characters.
  lemma CutExactly(s: string, r: string)
    ensures Cut(s) == r <==> r <= s && |r| <= 127 && (r == s || |r| == 127)
  {
  }

  function Encode(stored: seq<string>): seq<char> {
    if stored == [] then [] else Encode(stored[..|stored| - 1]) + stored[|stored| - 1] + [NUL]
  }

  // ---------------------------------------------------------------------------
  // Packing
  // ---------------------------------------------------------------------------

  // What should be packed: `stored` begins with the file name, empty if it cannot be read; then
  // come the arguments before the first one that is null or unreadable, up to maxArgs in all;
  // `more` says that there were that many and another one follows.
  ghost predicate PackedAs(filename: Arg, argv: seq<Arg>, maxArgs: nat, stored: seq<string>, more: bool) {
    && StoredFrom(filename, argv, stored) && |stored| <= maxArgs
    && (|stored| < maxArgs ==> !ArgAt(argv, |stored|).Str?)
    && (more <==> |stored| == maxArgs && ArgAt(argv, maxArgs) != Null)
  }

  // The file name and the arguments that follow it, each as much as fits.
  ghost predicate StoredFrom(filename: Arg, argv: seq<Arg>, stored: seq<string>) {
    && 1 <= |stored|
    && stored[0] == (if filename.Str? then Cut(filename.s) else "")
    && (forall k :: 1 <= k < |stored| ==> ArgAt(argv, k).Str? && stored[k] == Cut(ArgAt(argv, k).s))
  }

  lemma StoredSnoc(filename: Arg, argv: seq<Arg>, stored: seq<string>)
    requires StoredFrom(filename, argv, stored) && ArgAt(argv, |stored|).Str?
    ensures StoredFrom(filename, argv, stored + [Cut(ArgAt(argv, |stored|).s)])
  {
  }

  // Packing ends before the limit at an argument that is null or cannot be read, or at the limit.
  lemma PackedBefore(filename: Arg, argv: seq<Arg>, maxArgs: nat, stored: seq<string>)
    requires StoredFrom(filename, argv, stored) && |stored| < maxArgs && !ArgAt(argv, |stored|).Str?
    ensures PackedAs(filename, argv, maxArgs, stored, false)
  {
  }

  lemma PackedUpTo(filename: Arg, argv: seq<Arg>, maxArgs: nat, stored: seq<string>)
    requires StoredFrom(filename, argv, stored) && |stored| == maxArgs
    ensures PackedAs(filename, argv, maxArgs, stored, ArgAt(argv, maxArgs) != Null)
  {
  }

  class Event {
    var argsCount: int
    var argsSize: nat
    const args: array<char>

    constructor ()
      ensures args.Length == FULL_MAX_ARGS_ARR && fresh(args)
      ensures argsCount == 0 && argsSize == 0
    {
      args := new char[FULL_MAX_ARGS_ARR](_ => NUL);
      argsCount, argsSize := 0, 0;
    }

    // bpf_probe_read_user_str with a size of ARGSIZE: the number of bytes written with the NUL,
    // or an error that is a huge number when seen as unsigned.
    method ReadUserStr(at: nat, from: Arg) returns (ret: U32)
      requires at + ARGSIZE <= args.Length
      modifies args
      ensures from.Str? ==> ret == |Cut(from.s)| + 1 && args[at..at + ret] == Cut(from.s) + [NUL]
      ensures !from.Str? ==> ret > ARGSIZE
      ensures args[..at] == old(args[..at]) && args[at + ARGSIZE..] == old(args[at + ARGSIZE..])
    {
      if !from.Str? {
        return TWO32 - 14;
      }
      var s := Cut(from.s);
      var i := 0;
      while i < |s|
        invariant 0 <= i <= |s|
        invariant args[at..at + i] == s[..i]
        invariant args[..at] == old(args[..at]) && args[at + ARGSIZE..] == old(args[at + ARGSIZE..])
      {
        args[at + i] := s[i];
        i := i + 1;
      }
      args[at + i] := NUL;
      return |s| + 1;
    }

    // The strings packed so far fill args[..argsSize].
    ghost predicate Holds(stored: seq<string>)
      reads this, args
    {
      && args.Length == FULL_MAX_ARGS_ARR
      && argsSize == |Encode(stored)| <= ARGSIZE * |stored|
      && argsSize <= args.Length && args[..argsSize] == Encode(stored)
    }

    // One more string after the others; false, and nothing more, if it cannot be read.
    method Append(from: Arg, ghost stored: seq<string>) returns (ok: bool)
      requires Holds(stored) && argsSize <= LAST_ARG
      modifies this`argsSize, args
      ensures ok == from.Str?
      ensures Holds(if ok then stored + [Cut(from.s)] else stored)
    {
      ghost var before := args[..argsSize];
      var ret := ReadUserStr(argsSize, from);
      assert args[..argsSize] == before;
      if ret > ARGSIZE {
        return false;
      }
      ghost var longer := stored + [Cut(from.s)];
      assert longer[..|longer| - 1] == stored;
      assert args[..argsSize + ret] == args[..argsSize] + args[argsSize..argsSize + ret];
      argsSize := argsSize + ret;
      return true;
    }

    // The first string is the file name, or an empty one if it cannot be read.
    method PackFilename(filename: Arg) returns (ghost stored: seq<string>)
      requires args.Length == FULL_MAX_ARGS_ARR && argsSize == 0
      modifies this`argsSize, args
      ensures stored == [if filename.Str? then Cut(filename.s) else ""] && Holds(stored)
    {
      stored := [];
      assert args[..0] == Encode(stored);
      var ok := Append(filename, stored);
      if ok {
        stored := stored + [Cut(filename.s)];
      } else {
        args[0] := NUL;
        argsSize := argsSize + 1;
        stored := [""];
        assert stored[..0] == [] && args[..1] == [NUL];
      }
    }

    // One more argument, which is not null.
    method PackNext(ghost filename: Arg, ghost argv: seq<Arg>, ghost i: nat, argp: Arg, ghost before: seq<string>)
        returns (ok: bool, ghost stored: seq<string>)
      requires |before| == i == argsCount && 1 <= i < TOTAL_MAX_ARGS && argp == ArgAt(argv, i)
      requires StoredFrom(filename, argv, before) && Holds(before)
      modifies this, args
      ensures ok == argp.Str? && |stored| == argsCount == (if ok then i + 1 else i)
      ensures StoredFrom(filename, argv, stored) && Holds(stored)
    {
      assert argsSize <= LAST_ARG;
      ok := Append(argp, before);
      stored := before;
      if ok {
        StoredSnoc(filename, argv, before);
        stored := before + [Cut(argp.s)];
        argsCount := argsCount + 1;
      }
    }

    // sys_enter_execve from the point where the event is new. Every string lies inside args: the
    // exit for args_size > LAST_ARG is never taken, as each string takes at most ARGSIZE bytes.
    method Pack(filename: Arg, argv: seq<Arg>, maxArgs: nat) returns (ghost stored: seq<string>, ghost more: bool)
      requires args.Length == FULL_MAX_ARGS_ARR && 1 <= maxArgs <= TOTAL_MAX_ARGS
      modifies this, args
      ensures PackedAs(filename, argv, maxArgs, stored, more)
      ensures Holds(stored)
      ensures argsCount == |stored| + if more then 1 else 0
    {
      argsCount := 0;
      argsSize := 0;
      more := false;
      stored := PackFilename(filename);
      argsCount := argsCount + 1;

      var i := 1;
      while i < TOTAL_MAX_ARGS && i < maxArgs
        invariant 1 <= i <= maxArgs && |stored| == i == argsCount && !more
        invariant StoredFrom(filename, argv, stored)
        invariant Holds(stored)
      {
        var argp := ArgAt(argv, i);
        if argp.Null? {
          PackedBefore(filename, argv, maxArgs, stored);
          return;
        }
        var ok;
        ok, stored := PackNext(filename, argv, i, argp, stored);
        if !ok {
          PackedBefore(filename, argv, maxArgs, stored);
          return;
        }
        i := i + 1;
      }
      PackedUpTo(filename, argv, maxArgs, stored);
      if ArgAt(argv, maxArgs).Null? {
        return;
      }
      more := true;
      argsCount := argsCount + 1;
    }
  }

  // ---------------------------------------------------------------------------
  // Printing
  // ---------------------------------------------------------------------------

  function Quoted(c: char): string {
    match c
    case '"' => "\\\""
    case '\t' => "\\t"
    case '\n' => "\\n"
    case _ => [c]
  }

  // What the loop of print_args prints for the rest of the buffer, after `counter` arguments.
  function PrintedFrom(rest: seq<char>, counter: nat, count: int, quote: bool): string
    decreases |rest|
  {
    if rest == [] || counter >= count then ""
    else
      PrintedChar(rest[0], counter, count, quote)
      + PrintedFrom(rest[1..], if rest[0] == NUL then counter + 1 else counter, count, quote)
  }

  function PrintedChar(c: char, counter: nat, count: int, quote: bool): string {
    if c != NUL then (if quote then Quoted(c) else [c])
    else if !quote then " "
    else "\" " + (if counter + 1 < count then "\"" else "")
  }

  // The output of print_args for an event.
  function Printed(args: seq<char>, count: int, maxArgs: nat, quote: bool): string {
    (if quote then "\"" else "") + PrintedFrom(args, 0, count, quote) + (if count == maxArgs + 1 then " ..." else "")
  }

  method QuotedSymbol(c: char) returns (out: string)
    ensures out == Quoted(c)
  {
    match c {
      case '"' =>
        out := ['\\'];
        out := out + ['"'];
      case '\t' =>
        out := ['\\'];
        out := out + ['t'];
      case '\n' =>
        out := ['\\'];
        out := out + ['n'];
      case _ =>
        out := [c];
    }
  }

  method PrintArgs(args: seq<char>, count: int, maxArgs: nat, quote: bool) returns (out: string)
    ensures out == Printed(args, count, maxArgs, quote)
  {
    out := "";
    if quote {
      out := out + ['"'];
    }
    ghost var all := out + PrintedFrom(args, 0, count, quote);
    var counter := 0;
    var i := 0;
    while i < |args| && counter < count
      invariant 0 <= i <= |args| && 0 <= counter
      invariant out + PrintedFrom(args[i..], counter, count, quote) == all
    {
      PrintedMore(out, args, i, counter, count, quote, all);
      var piece;
      piece, counter := PrintChar(args[i], counter, count, quote);
      out := out + piece;
      i := i + 1;
    }
    PrintedDone(out, args, i, counter, count, quote, all);
    if count == maxArgs + 1 {
      out := out + " ...";
    }
  }

  lemma PrintedMore(out: string, args: seq<char>, i: nat, counter: nat, count: int, quote: bool, all: string)
    requires i < |args| && counter < count && out + PrintedFrom(args[i..], counter, count, quote) == all
    ensures var counter' := if args[i] == NUL then counter + 1 else counter;
      out + PrintedChar(args[i], counter, count, quote) + PrintedFrom(args[i + 1..], counter', count, quote) == all
  {
    var counter' := if args[i] == NUL then counter + 1 else counter;
    assert args[i..] == [args[i]] + args[i + 1..];
    PrintedCons(args[i], args[i + 1..], counter, count, quote);
    Assoc(out, PrintedChar(args[i], counter, count, quote), PrintedFrom(args[i + 1..], counter', count, quote));
  }

  lemma PrintedDone(out: string, args: seq<char>, i: nat, counter: nat, count: int, quote: bool, all: string)
    requires i <= |args| && (i == |args| || counter >= count)
    requires out + PrintedFrom(args[i..], counter, count, quote) == all
    ensures out == all
  {
    assert i == |args| ==> args[i..] == [];
  }

  method PrintChar(c: char, counter0: nat, count: int, quote: bool) returns (out: string, counter: nat)
    ensures out == PrintedChar(c, counter0, count, quote)
    ensures counter == if c == NUL then counter0 + 1 else counter0
  {
    counter := counter0;
    if quote {
      if c == NUL {
        counter := counter + 1;
        out := "\" ";
        if counter < count {
          out := out + "\"";
        }
      } else {
        out := QuotedSymbol(c);
      }
    } else {
      if c == NUL {
        counter := counter + 1;
        out := " ";
      } else {
        out := [c];
      }
    }
  }

  // ---------------------------------------------------------------------------
  // Printing undoes packing
  // ---------------------------------------------------------------------------

  function Escape(s: string): string {
    if s == "" then "" else Quoted(s[0]) + Escape(s[1..])
  }

  // Each argument and a space.
  function Unquoted(stored: seq<string>): string {
    if stored == [] then "" else stored[0] + " " + Unquoted(stored[1..])
  }

  // Each argument escaped, in quotes, and a space.
  function QuotedAll(stored: seq<string>): string {
    if stored == [] then "" else "\"" + Escape(stored[0]) + "\" " + QuotedAll(stored[1..])
  }

  predicate CStrings(stored: seq<string>) {
    forall k :: 0 <= k < |stored| ==> CString(stored[k])
  }

  lemma EncodeSnoc(stored: seq<string>, s: string)
    ensures Encode(stored + [s]) == Encode(stored) + s + [NUL]
  {
    assert (stored + [s])[..|stored + [s]| - 1] == stored;
  }

  lemma {:induction false} EncodeCons(s: string, stored: seq<string>)
    ensures Encode([s] + stored) == s + [NUL] + Encode(stored)
    decreases |stored|
  {
    if stored == [] {
      assert [s] + stored == [] + [s];
      EncodeSnoc([], s);
      assert Encode([]) + s + [NUL] == s + [NUL] + Encode([]);
    } else {
      var init, last := stored[..|stored| - 1], stored[|stored| - 1];
      EncodeCons(s, init);
      assert [s] + stored == ([s] + init) + [last];
      EncodeSnoc([s] + init, last);
      assert (s + [NUL] + Encode(init)) + last + [NUL] == s + [NUL] + (Encode(init) + last + [NUL]);
    }
  }

  lemma PrintedString(s: string, rest: seq<char>, counter: nat, count: int, quote: bool)
    requires CString(s) && counter < count
    ensures PrintedFrom(s + [NUL] + rest, counter, count, quote) ==
      (if quote then Escape(s) + ("\" " + (if counter + 1 < count then "\"" else "")) else s + " ")
      + PrintedFrom(rest, counter + 1, count, quote)
  {
    Assoc(s, [NUL], rest);
    PrintedText(s, [NUL] + rest, counter, count, quote);
    TextIs(s, quote);
    PrintedCons(NUL, rest, counter, count, quote);
    Assoc(TextOf(s, quote), PrintedChar(NUL, counter, count, quote), PrintedFrom(rest, counter + 1, count, quote));
  }

  // The characters before the NUL.
  lemma {:induction false} PrintedText(s: string, rest: seq<char>, counter: nat, count: int, quote: bool)
    requires CString(s) && counter < count
    ensures PrintedFrom(s + rest, counter, count, quote) == TextOf(s, quote) + PrintedFrom(rest, counter, count, quote)
    decreases |s|
  {
    if s == "" {
      assert s + rest == rest;
    } else {
      var t := s[1..];
      assert NUL !in t;
      PrintedText(t, rest, counter, count, quote);
      assert s + rest == [s[0]] + (t + rest);
      PrintedCons(s[0], t + rest, counter, count, quote);
      Assoc(PrintedChar(s[0], counter, count, quote), TextOf(t, quote), PrintedFrom(rest, counter, count, quote));
    }
  }

  function TextOf(s: string, quote: bool): string {
    if s == "" then "" else (if quote then Quoted(s[0]) else [s[0]]) + TextOf(s[1..], quote)
  }

  lemma {:induction false} TextIs(s: string, quote: bool)
    ensures TextOf(s, quote) == if quote then Escape(s) else s
    decreases |s|
  {
    if s != "" {
      TextIs(s[1..], quote);
    }
  }

  lemma PrintedCons(c: char, rest: seq<char>, counter: nat, count: int, quote: bool)
    requires counter < count
    ensures PrintedFrom([c] + rest, counter, count, quote)
         == PrintedChar(c, counter, count, quote)
            + PrintedFrom(rest, if c == NUL then counter + 1 else counter, count, quote)
  {
    assert ([c] + rest)[1..] == rest;
  }

  lemma {:induction false} PrintedUnquoted(stored: seq<string>, counter: nat, count: int)
    requires CStrings(stored) && counter + |stored| <= count
    ensures PrintedFrom(Encode(stored), counter, count, false) == Unquoted(stored)
    decreases |stored|
  {
    if stored != [] {
      assert stored == [stored[0]] + stored[1..];
      EncodeCons(stored[0], stored[1..]);
      PrintedString(stored[0], Encode(stored[1..]), counter, count, false);
      PrintedUnquoted(stored[1..], counter + 1, count);
    }
  }

  lemma Join(text: string, mark: string, tail: string)
    ensures "\"" + (text + ("\" " + mark) + tail) == "\"" + text + "\" " + (mark + tail)
  {
  }

  lemma {:induction false} PrintedQuoted(stored: seq<string>, counter: nat, count: int)
    requires CStrings(stored) && counter + |stored| <= count && counter < count
    ensures "\"" + PrintedFrom(Encode(stored), counter, count, true) ==
      QuotedAll(stored) + (if counter + |stored| < count then "\"" else "")
    decreases |stored|, 0
  {
    if stored != [] {
      var text, rest := Escape(stored[0]), stored[1..];
      assert stored == [stored[0]] + rest;
      EncodeCons(stored[0], rest);
      PrintedString(stored[0], Encode(rest), counter, count, true);
      var mark := if counter + 1 < count then "\"" else "";
      var tail := PrintedFrom(Encode(rest), counter + 1, count, true);
      Join(text, mark, tail);
      QuotedRest(text, rest, counter, count, mark + tail);
    }
  }

  // After the first argument either nothing is left, or the opening quote of the next one.
  lemma QuotedRest(text: string, rest: seq<string>, counter: nat, count: int, more: string)
    requires CStrings(rest) && counter + 1 + |rest| <= count
    requires more == (if counter + 1 < count then "\"" else "") + PrintedFrom(Encode(rest), counter + 1, count, true)
    ensures "\"" + text + "\" " + more ==
      "\"" + text + "\" " + QuotedAll(rest) + (if counter + 1 + |rest| < count then "\"" else "")
    decreases |rest|, 1
  {
    if counter + 1 < count {
      PrintedQuoted(rest, counter + 1, count);
    } else {
      assert rest == [] && more == "";
    }
  }

  // For every argument vector: the unquoted output of a packed event is each stored argument
  // followed by a space, and " ..." follows exactly when the first maxArgs arguments were all
  // stored and one more exists.
  lemma {:induction false} UnquotedOutput(filename: Arg, argv: seq<Arg>, maxArgs: nat, stored: seq<string>, more: bool)
    requires PackedAs(filename, argv, maxArgs, stored, more)
    requires CArg(filename) && forall k :: 0 <= k < |argv| ==> CArg(argv[k])
    ensures Printed(Encode(stored), |stored| + (if more then 1 else 0), maxArgs, false) ==
      Unquoted(stored) + (if |stored| == maxArgs && ArgAt(argv, maxArgs) != Null then " ..." else "")
  {
    StoredAreCStrings(filename, argv, maxArgs, stored, more);
    UnquotedEvent(stored, more, maxArgs);
  }

  lemma {:induction false} UnquotedEvent(stored: seq<string>, more: bool, maxArgs: nat)
    requires CStrings(stored) && |stored| <= maxArgs && (more ==> |stored| == maxArgs)
    ensures Printed(Encode(stored), |stored| + (if more then 1 else 0), maxArgs, false) ==
      Unquoted(stored) + (if more then " ..." else "")
  {
    PrintedUnquoted(stored, 0, |stored| + (if more then 1 else 0));
    NoQuote(Unquoted(stored), if more then " ..." else "");
  }

  lemma StoredAreCStrings(filename: Arg, argv: seq<Arg>, maxArgs: nat, stored: seq<string>, more: bool)
    requires PackedAs(filename, argv, maxArgs, stored, more)
    requires CArg(filename) && forall k :: 0 <= k < |argv| ==> CArg(argv[k])
    ensures CStrings(stored)
  {
    forall k | 0 <= k < |stored|
      ensures CString(stored[k])
    {
      if k > 0 {
        assert ArgAt(argv, k).Str?;
      }
    }
  }

  // The quoted output is each stored argument escaped, in quotes, and a space; when more
  // arguments exist an opening quote and " ..." follow.
  lemma {:induction false} QuotedOutput(filename: Arg, argv: seq<Arg>, maxArgs: nat, stored: seq<string>, more: bool)
    requires PackedAs(filename, argv, maxArgs, stored, more)
    requires CArg(filename) && forall k :: 0 <= k < |argv| ==> CArg(argv[k])
    ensures Printed(Encode(stored), |stored| + (if more then 1 else 0), maxArgs, true) ==
      QuotedAll(stored) + (if more then "\" ..." else "")
  {
    StoredAreCStrings(filename, argv, maxArgs, stored, more);
    QuotedEvent(stored, more, maxArgs);
  }

  lemma {:induction false} QuotedEvent(stored: seq<string>, more: bool, maxArgs: nat)
    requires CStrings(stored) && 1 <= |stored| <= maxArgs && (more ==> |stored| == maxArgs)
    ensures Printed(Encode(stored), |stored| + (if more then 1 else 0), maxArgs, true) ==
      QuotedAll(stored) + (if more then "\" ..." else "")
  {
    PrintedQuoted(stored, 0, |stored| + (if more then 1 else 0));
    Dots(QuotedAll(stored));
  }

  lemma NoQuote(all: string, dots: string)
    ensures "" + all + dots == all + dots
  {
  }

  lemma Dots(all: string)
    ensures all + "\"" + " ..." == all + "\" ..."
    ensures all + "" + "" == all + ""
  {
  }

  // ---------------------------------------------------------------------------
  // Reading the quoted output back
  // ---------------------------------------------------------------------------

  datatype Token = Token(text: string, rest: string)

  predicate Escapable(c: char) {
    c == '"' || c == 't' || c == 'n'
  }

  // Reads to the closing quote. A backslash before a quote, t or n is an escape; any other
  // backslash stands for itself.
  function ReadQuoted(t: string): Option<Token>
    decreases |t|
  {
    if t == "" then None
    else if t[0] == '"' then Some(Token("", t[1..]))
    else if t[0] == '\\' && |t| > 1 && Escapable(t[1]) then
      match ReadQuoted(t[2..])
      case None => None
      case Some(r) => Some(r.(text := [if t[1] == '"' then '"' else if t[1] == 't' then '\t' else '\n'] + r.text))
    else
      match ReadQuoted(t[1..])
      case None => None
      case Some(r) => Some(r.(text := [t[0]] + r.text))
  }

  function ReadAll(t: string): Option<seq<string>>
    decreases |t|
  {
    if t == "" then Some([])
    else if t[0] != '"' then None
    else
      match ReadQuoted(t[1..])
      case None => None
      case Some(r) =>
        if r.rest == "" || r.rest[0] != ' ' || |r.rest| >= |t| then None
        else match ReadAll(r.rest[1..])
          case None => None
          case Some(args) => Some([r.text] + args)
  }

  // A backslash at the end, or before t or n, reads back as an escape that was never written.
  ghost predicate Ambiguous(s: string) {
    exists i :: AmbiguousAt(s, i)
  }

  predicate AmbiguousAt(s: string, i: int) {
    0 <= i < |s| && s[i] == '\\' && (i == |s| - 1 || s[i + 1] == 't' || s[i + 1] == 'n')
  }

  lemma AmbiguousTail(s: string)
    requires s != ""
    ensures Ambiguous(s) <==> AmbiguousAt(s, 0) || Ambiguous(s[1..])
  {
    if Ambiguous(s[1..]) {
      var i :| AmbiguousAt(s[1..], i);
      assert AmbiguousAt(s, i + 1);
    }
    if i :| AmbiguousAt(s, i) && i > 0 {
      assert AmbiguousAt(s[1..], i - 1);
    }
  }

  // An argument reads back exactly when no backslash in it is ambiguous.
  lemma {:induction false} ReadEscaped(s: string, rest: string)
    ensures !Ambiguous(s) ==> ReadQuoted(Escape(s) + "\"" + rest) == Some(Token(s, rest))
    ensures Ambiguous(s) ==>
      var r := ReadQuoted(Escape(s) + "\"" + rest); r.None? || r.value.text != s
    decreases |s|
  {
    var t := Escape(s) + "\"" + rest;
    if s == "" {
      assert t == "\"" + rest;
      assert t[0] == '"' && t[1..] == rest;
    } else {
      var tail := Escape(s[1..]) + "\"" + rest;
      assert t == Quoted(s[0]) + tail;
      AmbiguousTail(s);
      ReadEscaped(s[1..], rest);
      assert s == [s[0]] + s[1..];
      if s[0] == '\\' {
        ReadBackslash(s, rest, tail, t);
      } else {
        ReadOne(s[0], tail);
      }
    }
  }

  // Any other character than a backslash reads back by itself.
  lemma ReadOne(c: char, tail: string)
    requires c != '\\'
    ensures ReadQuoted(Quoted(c) + tail) ==
      match ReadQuoted(tail) case None => None case Some(r) => Some(r.(text := [c] + r.text))
  {
    var t := Quoted(c) + tail;
    if c == '"' || c == '\t' || c == '\n' {
      assert t[0] == '\\' && Escapable(t[1]) && t[2..] == tail;
    } else {
      assert t[0] == c && t[1..] == tail;
    }
  }

  // After a backslash comes the escape of the next character, or the closing quote.
  lemma ReadBackslash(s: string, rest: string, tail: string, t: string)
    requires s != "" && s[0] == '\\' && t == ['\\'] + tail
    requires tail == Escape(s[1..]) + "\"" + rest
    ensures AmbiguousAt(s, 0) ==> var r := ReadQuoted(t); r.None? || r.value.text != s
    ensures !AmbiguousAt(s, 0) ==> t[0] == '\\' && t[1..] == tail && |t| > 1 && !Escapable(t[1])
  {
    EscapeStarts(s[1..], rest);
    assert t[1] == tail[0] && t[1..] == tail;
  }

  // The first character of an escaped rest, with its closing quote.
  lemma EscapeStarts(s: string, rest: string)
    ensures |Escape(s) + "\"" + rest| > 0
    ensures (Escape(s) + "\"" + rest)[0] == if s == "" then '"' else Quoted(s[0])[0]
  {
    if s != "" {
      assert Escape(s) == Quoted(s[0]) + Escape(s[1..]);
    }
  }

  // The quoted output of a complete list reads back to the stored arguments exactly when no
  // argument has a backslash at its end, or before t or n.
  lemma {:induction false} QuotedRoundTrip(stored: seq<string>)
    ensures ReadAll(QuotedAll(stored)) == Some(stored) <==> forall k :: 0 <= k < |stored| ==> !Ambiguous(stored[k])
    decreases |stored|
  {
    if stored != [] {
      var s, rest := stored[0], stored[1..];
      var tail := " " + QuotedAll(rest);
      var t := QuotedAll(stored);
      assert t == "\"" + (Escape(s) + "\"" + tail);
      assert t[0] == '"' && t[1..] == Escape(s) + "\"" + tail;
      ReadEscaped(s, tail);
      QuotedRoundTrip(rest);
      assert stored == [s] + rest;
      if Ambiguous(s) {
        assert ReadAll(t) != Some(stored) by {
          if ReadAll(t).Some? {
            assert ReadAll(t).value[0] == ReadQuoted(t[1..]).value.text;
          }
        }
      } else {
        assert tail[1..] == QuotedAll(rest);
        assert |tail| < |t|;
        if ReadAll(t) == Some(stored) {
          assert ReadAll(QuotedAll(rest)).Some? && [s] + ReadAll(QuotedAll(rest)).value == [s] + rest;
          assert ([s] + ReadAll(QuotedAll(rest)).value)[1..] == ([s] + rest)[1..];
        }
        RestAmbiguous(stored);
      }
    }
  }

  lemma RestAmbiguous(stored: seq<string>)
    requires stored != [] && !Ambiguous(stored[0])
    ensures (forall k :: 0 <= k < |stored| ==> !Ambiguous(stored[k]))
       <==> (forall k :: 0 <= k < |stored[1..]| ==> !Ambiguous(stored[1..][k]))
  {
    assert forall k :: 0 <= k < |stored[1..]| ==> stored[1..][k] == stored[k + 1];
    assert forall k :: 0 < k < |stored| ==> stored[k] == stored[1..][k - 1];
  }
}
