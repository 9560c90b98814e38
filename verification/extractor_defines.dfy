// How the extractor copies macro definitions: every one under an #ifndef of its own name.
module ExtractorDefines {
  import opened Machine

  // A source line without its surrounding white space: empty, holding "#define" and the word
  // after it, or anything else. `cont` says that it ends in a backslash.
  datatype Line = Blank | Define(name: string, text: string, cont: bool) | Plain(text: string, cont: bool)

  datatype OutLine = Note | IfndefLine(name: string) | Copy(line: Line) | Empty | EndifLine

  // ---------------------------------------------------------------------------
  // What addDefines writes and remembers
  // ---------------------------------------------------------------------------

  function Written(file: seq<Line>, multi: bool): seq<OutLine>
    decreases |file|
  {
    if file == [] then []
    else match file[0]
      case Blank => Written(file[1..], multi)
      case Define(name, _, cont) =>
        [Note, IfndefLine(name), Copy(file[0])]
        + (if cont then Written(file[1..], true) else [EndifLine, Note] + Written(file[1..], multi))
      case Plain(_, cont) =>
        if !multi then Written(file[1..], false)
        else if cont then [Copy(file[0])] + Written(file[1..], true)
        else [Copy(file[0]), Empty, EndifLine, Note] + Written(file[1..], false)
  }

  // What one line adds, and whether a continued definition is open after it.
  function LineOut(line: Line, multi: bool): seq<OutLine> {
    match line
    case Blank => []
    case Define(name, _, cont) => [Note, IfndefLine(name), Copy(line)] + if cont then [] else [EndifLine, Note]
    case Plain(_, cont) =>
      if !multi then [] else if cont then [Copy(line)] else [Copy(line), Empty, EndifLine, Note]
  }

  predicate StaysOpen(line: Line, multi: bool) {
    match line
    case Blank => multi
    case Define(_, _, cont) => cont || multi
    case Plain(_, cont) => multi && cont
  }

  lemma WrittenMore(out: seq<OutLine>, file: seq<Line>, i: nat, multi: bool, all: seq<OutLine>)
    requires i < |file| && out + Written(file[i..], multi) == all
    ensures out + LineOut(file[i], multi) + Written(file[i + 1..], StaysOpen(file[i], multi)) == all
  {
    assert file[i..][1..] == file[i + 1..];
    Assoc(out, LineOut(file[i], multi), Written(file[i + 1..], StaysOpen(file[i], multi)));
  }

  lemma NamesMore(met: seq<string>, file: seq<Line>, i: nat, all: seq<string>)
    requires i < |file| && met + DefinedNames(file[i..]) == all
    ensures met + DefinedNames([file[i]]) + DefinedNames(file[i + 1..]) == all
  {
    assert file[i..][1..] == file[i + 1..] && [file[i]][1..] == [];
    Assoc(met, DefinedNames([file[i]]), DefinedNames(file[i + 1..]));
  }

  function DefinedNames(file: seq<Line>): seq<string>
    decreases |file|
  {
    if file == [] then []
    else (if file[0].Define? then [file[0].name] else []) + DefinedNames(file[1..])
  }

  predicate DefinesAt(file: seq<Line>, k: nat, name: string) {
    k < |file| && file[k].Define? && file[k].name == name
  }

  // The lines of a file that define the name.
  ghost function Places(file: seq<Line>, name: string): set<nat> {
    set k: nat | k < |file| && DefinesAt(file, k, name)
  }

  // How many lines of all files define it.
  ghost function Definitions(files: seq<seq<Line>>, name: string): nat {
    if files == [] then 0 else Definitions(files[..|files| - 1], name) + |Places(files[|files| - 1], name)|
  }

  lemma {:induction false} NamesSnoc(file: seq<Line>, line: Line)
    ensures DefinedNames(file + [line]) == DefinedNames(file) + if line.Define? then [line.name] else []
    decreases |file|
  {
    if file == [] {
      assert (file + [line])[1..] == [];
    } else {
      AppendTail(file, [line]);
      NamesSnoc(file[1..], line);
      Assoc(if file[0].Define? then [file[0].name] else [], DefinedNames(file[1..]),
            if line.Define? then [line.name] else []);
    }
  }

  lemma {:induction false} OccurrencesAdd(a: seq<string>, b: seq<string>, name: string)
    ensures Occurrences(a + b, name) == Occurrences(a, name) + Occurrences(b, name)
    decreases |b|
  {
    if b == [] {
      assert a + b == a;
    } else {
      var n := |b| - 1;
      assert (a + b)[..|a| + n] == a + b[..n];
      OccurrencesAdd(a, b[..n], name);
    }
  }

  lemma {:induction false} OccursAtPlaces(file: seq<Line>, name: string)
    ensures Occurrences(DefinedNames(file), name) == |Places(file, name)|
    decreases |file|
  {
    if file == [] {
      assert Places(file, name) == {};
    } else {
      var n := |file| - 1;
      var front, line := file[..n], file[n];
      OccursAtPlaces(front, name);
      assert file == front + [line];
      NamesSnoc(front, line);
      OccurrencesAdd(DefinedNames(front), if line.Define? then [line.name] else [], name);
      OneOccurs(if line.Define? then [line.name] else [], name);
      PlacesSnoc(front, line, name);
    }
  }

  lemma OneOccurs(names: seq<string>, name: string)
    requires |names| <= 1
    ensures Occurrences(names, name) == if names == [name] then 1 else 0
  {
    if names != [] {
      assert names[..0] == [] && names == [names[0]];
    }
  }

  lemma PlacesSnoc(file: seq<Line>, line: Line, name: string)
    ensures |Places(file + [line], name)| == |Places(file, name)| + if line.Define? && line.name == name then 1 else 0
  {
    var more, last: set<nat> := file + [line], if line.Define? && line.name == name then {|file|} else {};
    forall k: nat
      ensures k in Places(more, name) <==> k in Places(file, name) + last
    {
      assert k < |file| ==> more[k] == file[k];
      assert DefinesAt(more, k, name) <==> DefinesAt(file, k, name) || k in last;
    }
    assert Places(more, name) == Places(file, name) + last;
  }

  lemma {:induction false} OccursInFiles(files: seq<seq<Line>>, name: string)
    ensures Occurrences(NamesOfAll(files), name) == Definitions(files, name)
  {
    if files != [] {
      var n := |files| - 1;
      OccursInFiles(files[..n], name);
      OccursAtPlaces(files[n], name);
      OccurrencesAdd(NamesOfAll(files[..n]), DefinedNames(files[n]), name);
    }
  }

  // The tables hold the names defined by a line, and those defined by two or more.
  lemma TablesExactly(seen: set<string>, dups: set<string>, files: seq<seq<Line>>)
    requires Tables(seen, dups, NamesOfAll(files))
    ensures forall n :: (n in seen <==> Definitions(files, n) >= 1) && (n in dups <==> Definitions(files, n) >= 2)
  {
    forall n
      ensures Occurrences(NamesOfAll(files), n) == Definitions(files, n)
    {
      OccursInFiles(files, n);
    }
  }

  function Occurrences(names: seq<string>, name: string): nat {
    if names == [] then 0
    else Occurrences(names[..|names| - 1], name) + (if names[|names| - 1] == name then 1 else 0)
  }

  // Of the names met so far, once is seen and twice is duplicate.
  ghost predicate Tables(seen: set<string>, dups: set<string>, met: seq<string>) {
    forall n :: (n in seen <==> Occurrences(met, n) >= 1) && (n in dups <==> Occurrences(met, n) >= 2)
  }

  lemma OneMoreName(seen: set<string>, dups: set<string>, met: seq<string>, name: string)
    requires Tables(seen, dups, met)
    ensures var more := met + [name];
      if name in seen then Tables(seen, dups + {name}, more) else Tables(seen + {name}, dups, more)
  {
    assert (met + [name])[..|met + [name]| - 1] == met;
  }

  // The output file and the two dictionaries that addDefines shares between its calls.
  class DefineWriter {
    var out: seq<OutLine>
    var seen: set<string>
    var dups: set<string>
    ghost var met: seq<string>
    ghost var files: seq<seq<Line>>

    // The output is what the files make, one after the other, and the duplicate table holds
    // exactly the names that occurred at least twice.
    ghost predicate Valid()
      reads this
    {
      && out == WrittenAll(files)
      && met == NamesOfAll(files)
      && Tables(seen, dups, met)
    }

    constructor ()
      ensures Valid() && files == []
    {
      out, seen, dups, met, files := [], {}, {}, [], [];
    }

    method Remember(name: string)
      requires Tables(seen, dups, met)
      modifies this`seen, this`dups, this`met
      ensures Tables(seen, dups, met) && met == old(met) + [name]
    {
      OneMoreName(seen, dups, met, name);
      met := met + [name];
      if name in seen {
        dups := dups + {name};
      } else {
        seen := seen + {name};
      }
    }

    method AddDefines(file: seq<Line>)
      requires Valid()
      modifies this
      ensures Valid() && files == old(files) + [file]
      ensures out == old(out) + Written(file, false)
      ensures forall n :: (n in seen <==> Definitions(files, n) >= 1) && (n in dups <==> Definitions(files, n) >= 2)
    {
      var multi := false;
      var i := 0;
      ghost var allOut, allMet := out + Written(file, false), met + DefinedNames(file);
      while i < |file|
        invariant 0 <= i <= |file|
        invariant files == old(files)
        invariant out + Written(file[i..], multi) == allOut
        invariant met + DefinedNames(file[i..]) == allMet
        invariant Tables(seen, dups, met)
      {
        WrittenMore(out, file, i, multi, allOut);
        NamesMore(met, file, i, allMet);
        multi := WriteLine(file[i], multi);
        i := i + 1;
      }
      assert file[|file|..] == [];
      files := files + [file];
      assert files[..|files| - 1] == old(files);
      assert met == NamesOfAll(files);
      TablesExactly(seen, dups, files);
    }

    // The body of the loop.
    method WriteLine(line: Line, multi0: bool) returns (multi: bool)
      requires Tables(seen, dups, met)
      modifies this`out, this`seen, this`dups, this`met
      ensures out == old(out) + LineOut(line, multi0) && multi == StaysOpen(line, multi0)
      ensures Tables(seen, dups, met) && met == old(met) + DefinedNames([line])
    {
      multi := multi0;
      match line {
        case Blank =>
        case Define(name, _, cont) =>
          Remember(name);
          out := out + [Note, IfndefLine(name)];
          if cont {
            multi := true;
            out := out + [Copy(line)];
          } else {
            out := out + [Copy(line)];
            out := out + [EndifLine, Note];
          }
        case Plain(_, cont) =>
          if cont && multi {
            out := out + [Copy(line)];
          } else if !cont && multi {
            out := out + [Copy(line), Empty];
            out := out + [EndifLine, Note];
            multi := false;
          }
      }
    }
  }

  function WrittenAll(files: seq<seq<Line>>): seq<OutLine> {
    if files == [] then [] else WrittenAll(files[..|files| - 1]) + Written(files[|files| - 1], false)
  }

  function NamesOfAll(files: seq<seq<Line>>): seq<string> {
    if files == [] then [] else NamesOfAll(files[..|files| - 1]) + DefinedNames(files[|files| - 1])
  }

  // ---------------------------------------------------------------------------
  // The preprocessor on what is written
  // ---------------------------------------------------------------------------

  type Macros = map<string, seq<string>>

  // A physical line that ends in a backslash glues the next one to it: to the definition it
  // continues, or to something that defines nothing.
  datatype Glue = NoGlue | Defining(name: string, body: seq<string>) | Skipping

  datatype Pre = Pre(macros: Macros, conds: seq<bool>, glue: Glue)

  predicate Continued(l: OutLine) {
    l.Copy? && !l.line.Blank? && l.line.cont
  }

  function TextOf(l: OutLine): string {
    if l.Copy? && !l.line.Blank? then l.line.text else ""
  }

  predicate Active(s: Pre) {
    false !in s.conds
  }

  // None for an #endif without an open conditional.
  function Process(s: Pre, l: OutLine): Option<Pre> {
    match s.glue
    case Defining(name, body) =>
      var body' := body + [TextOf(l)];
      Some(if Continued(l) then s.(glue := Defining(name, body'))
           else s.(macros := s.macros[name := body'], glue := NoGlue))
    case Skipping => Some(if Continued(l) then s else s.(glue := NoGlue))
    case NoGlue =>
      match l
      case IfndefLine(name) => Some(s.(conds := s.conds + [name !in s.macros]))
      case EndifLine => if s.conds == [] then None else Some(s.(conds := s.conds[..|s.conds| - 1]))
      case Copy(line) =>
        Some(if line.Define? && Active(s) then
               if line.cont then s.(glue := Defining(line.name, [line.text]))
               else s.(macros := s.macros[line.name := [line.text]])
             else if Continued(l) then s.(glue := Skipping)
             else s)
      case _ => Some(s)
  }

  function ProcessAll(s: Pre, out: seq<OutLine>): Option<Pre>
    decreases |out|
  {
    if out == [] then Some(s)
    else match Process(s, out[0])
      case None => None
      case Some(s') => ProcessAll(s', out[1..])
  }

  lemma {:induction false} ProcessAppend(s: Pre, a: seq<OutLine>, b: seq<OutLine>)
    ensures ProcessAll(s, a + b) == match ProcessAll(s, a) case None => None case Some(s') => ProcessAll(s', b)
    decreases |a|
  {
    if a == [] {
      assert a + b == b;
    } else {
      assert (a + b)[0] == a[0] && (a + b)[1..] == a[1..] + b;
      match Process(s, a[0])
      case None =>
      case Some(s') => ProcessAppend(s', a[1..], b);
    }
  }

  // ---------------------------------------------------------------------------
  // What should come of it
  // ---------------------------------------------------------------------------

  datatype Def = Def(name: string, body: seq<string>)

  // The definitions of a file in order; `open` is the one being continued.
  function Defs(file: seq<Line>, open: Option<Def>): seq<Def>
    decreases |file|
  {
    if file == [] then []
    else match file[0]
      case Blank => Defs(file[1..], open)
      case Define(name, text, cont) =>
        if cont then Defs(file[1..], Some(Def(name, [text])))
        else [Def(name, [text])] + Defs(file[1..], None)
      case Plain(text, cont) =>
        if open.None? then Defs(file[1..], None)
        else
          var d := open.value.(body := open.value.body + [text]);
          if cont then Defs(file[1..], Some(d)) else [d] + Defs(file[1..], None)
  }

  function DefsOfAll(files: seq<seq<Line>>): seq<Def> {
    if files == [] then [] else DefsOfAll(files[..|files| - 1]) + Defs(files[|files| - 1], None)
  }

  // Every continued definition ends before the end of the file, on a line that is not blank and
  // holds no "#define".
  predicate Clean(file: seq<Line>, inside: bool)
    decreases |file|
  {
    if file == [] then !inside
    else match file[0]
      case Blank => !inside && Clean(file[1..], false)
      case Define(_, _, cont) => !inside && Clean(file[1..], cont)
      case Plain(_, cont) => Clean(file[1..], inside && cont)
  }

  // A name keeps the binding it has, or takes its first definition in the list.
  ghost predicate BoundFirst(before: Macros, defs: seq<Def>, after: Macros, n: string) {
    if n in before then n in after && after[n] == before[n]
    else if n in after then exists i :: IsFirst(defs, i, n) && after[n] == defs[i].body
    else forall i :: 0 <= i < |defs| ==> defs[i].name != n
  }

  ghost predicate BindsFirst(before: Macros, defs: seq<Def>, after: Macros) {
    forall n :: BoundFirst(before, defs, after, n)
  }

  ghost predicate IsFirst(defs: seq<Def>, i: int, n: string) {
    0 <= i < |defs| && defs[i].name == n && forall j :: 0 <= j < i ==> defs[j].name != n
  }

  function Bind(macros: Macros, defs: seq<Def>): Macros {
    if defs == [] then macros
    else
      var d := defs[|defs| - 1];
      var m := Bind(macros, defs[..|defs| - 1]);
      if d.name in m then m else m[d.name := d.body]
  }

  lemma {:induction false} BindIsFirst(macros: Macros, defs: seq<Def>)
    ensures BindsFirst(macros, defs, Bind(macros, defs))
  {
    if defs != [] {
      var n := |defs| - 1;
      var short := defs[..n];
      BindIsFirst(macros, short);
      var m, after := Bind(macros, short), Bind(macros, defs);
      forall name
        ensures BoundFirst(macros, defs, after, name)
      {
        assert BoundFirst(macros, short, m, name);
        assert forall i :: 0 <= i < n ==> short[i] == defs[i];
        if name !in macros && name in m {
          var i :| IsFirst(short, i, name) && m[name] == short[i].body;
          assert IsFirst(defs, i, name) && after[name] == defs[i].body;
        } else if name !in macros && name == defs[n].name {
          assert IsFirst(defs, n, name) && after[name] == defs[n].body;
        }
      }
    }
  }

  lemma {:induction false} BindAppend(macros: Macros, a: seq<Def>, b: seq<Def>)
    ensures Bind(macros, a + b) == Bind(Bind(macros, a), b)
  {
    if b == [] {
      assert a + b == a;
    } else {
      var n := |b| - 1;
      assert (a + b)[..|a + b| - 1] == a + b[..n];
      BindAppend(macros, a, b[..n]);
    }
  }

  lemma BindOne(macros: Macros, d: Def)
    ensures Bind(macros, [d]) == if d.name in macros then macros else macros[d.name := d.body]
  {
    assert [d][..0] == [];
    assert Bind(macros, []) == macros;
  }

  // Between definitions, or inside a continued one that is being taken or skipped.
  function At(macros: Macros, open: Option<Def>): Pre {
    match open
    case None => Pre(macros, [], NoGlue)
    case Some(d) =>
      Pre(macros, [d.name !in macros], if d.name !in macros then Defining(d.name, d.body) else Skipping)
  }

  lemma {:induction false} ProcessStart(macros: Macros, name: string, text: string, cont: bool)
    ensures var line := Define(name, text, cont);
      ProcessAll(At(macros, None), [Note, IfndefLine(name), Copy(line)]) ==
        Some(if cont then At(macros, Some(Def(name, [text])))
             else Pre(Bind(macros, [Def(name, [text])]), [name !in macros], NoGlue))
  {
    var line := Define(name, text, cont);
    var s := At(macros, None);
    var t := s.(conds := [name !in macros]);
    assert [Note, IfndefLine(name), Copy(line)][1..] == [IfndefLine(name), Copy(line)];
    assert [IfndefLine(name), Copy(line)][1..] == [Copy(line)];
    assert [Copy(line)][1..] == [];
    assert s.conds + [name !in macros] == [name !in macros];
    assert ProcessAll(t, [Copy(line)]) == ProcessAll(Process(t, Copy(line)).value, []);
    assert Active(t) <==> name !in macros by {
      assert t.conds[0] == (name !in macros);
    }
    assert [Def(name, [text])][..0] == [];
  }

  lemma {:induction false} ProcessEnd(macros: Macros, b: bool)
    ensures ProcessAll(Pre(macros, [b], NoGlue), [EndifLine, Note]) == Some(At(macros, None))
    ensures ProcessAll(Pre(macros, [b], NoGlue), [Empty, EndifLine, Note]) == Some(At(macros, None))
  {
    var s := Pre(macros, [b], NoGlue);
    assert [Empty, EndifLine, Note][1..] == [EndifLine, Note];
    assert [EndifLine, Note][1..] == [Note];
    assert [Note][1..] == [];
    assert [b][..0] == [];
  }

  lemma {:induction false} WrittenMeaning(macros: Macros, file: seq<Line>, open: Option<Def>)
    requires Clean(file, open.Some?)
    ensures ProcessAll(At(macros, open), Written(file, open.Some?)) == Some(At(Bind(macros, Defs(file, open)), None))
    decreases |file|
  {
    if file != [] {
      var rest := file[1..];
      match file[0]
      case Blank =>
        WrittenMeaning(macros, rest, None);
      case Define(name, text, cont) =>
        var start := [Note, IfndefLine(name), Copy(file[0])];
        ProcessStart(macros, name, text, cont);
        if cont {
          ProcessAppend(At(macros, open), start, Written(rest, true));
          WrittenMeaning(macros, rest, Some(Def(name, [text])));
        } else {
          var d := [Def(name, [text])];
          ProcessAppend(At(macros, open), start, [EndifLine, Note] + Written(rest, false));
          ProcessEnd(Bind(macros, d), name !in macros);
          ProcessAppend(Pre(Bind(macros, d), [name !in macros], NoGlue), [EndifLine, Note], Written(rest, false));
          WrittenMeaning(Bind(macros, d), rest, None);
          BindAppend(macros, d, Defs(rest, None));
        }
      case Plain(text, cont) =>
        if open.None? {
          WrittenMeaning(macros, rest, None);
        } else {
          var d := open.value.(body := open.value.body + [text]);
          assert [Copy(file[0])][1..] == [];
          if cont {
            assert ProcessAll(At(macros, open), [Copy(file[0])]) == Some(At(macros, Some(d)));
            ProcessAppend(At(macros, open), [Copy(file[0])], Written(rest, true));
            WrittenMeaning(macros, rest, Some(d));
          } else {
            var m := Bind(macros, [d]);
            BindOne(macros, d);
            var mid := Pre(m, [d.name !in macros], NoGlue);
            assert Process(At(macros, open), Copy(file[0])) == Some(mid);
            assert ProcessAll(At(macros, open), [Copy(file[0])]) == Some(mid);
            ProcessEnd(m, d.name !in macros);
            var close := [Empty, EndifLine, Note];
            assert Written(file, true) == [Copy(file[0])] + (close + Written(rest, false));
            ProcessAppend(At(macros, open), [Copy(file[0])], close + Written(rest, false));
            ProcessAppend(mid, close, Written(rest, false));
            WrittenMeaning(m, rest, None);
            BindAppend(macros, [d], Defs(rest, None));
          }
        }
    }
  }

  lemma {:induction false} WrittenAllMeaning(macros: Macros, files: seq<seq<Line>>)
    requires forall i :: 0 <= i < |files| ==> Clean(files[i], false)
    ensures ProcessAll(At(macros, None), WrittenAll(files)) == Some(At(Bind(macros, DefsOfAll(files)), None))
  {
    if files != [] {
      var n := |files| - 1;
      var m := Bind(macros, DefsOfAll(files[..n]));
      WrittenAllMeaning(macros, files[..n]);
      ProcessAppend(At(macros, None), WrittenAll(files[..n]), Written(files[n], false));
      WrittenMeaning(m, files[n], None);
      BindAppend(macros, DefsOfAll(files[..n]), Defs(files[n], None));
    }
  }

  // Over any list of files whose continued definitions end properly, the output is balanced, and
  // preprocessing it binds each macro that was not defined before to its first definition.
  lemma {:induction false} AddDefinesMeaning(macros: Macros, files: seq<seq<Line>>)
    requires forall i :: 0 <= i < |files| ==> Clean(files[i], false)
    ensures var r := ProcessAll(Pre(macros, [], NoGlue), WrittenAll(files));
      && r.Some? && r.value.conds == [] && r.value.glue == NoGlue
      && BindsFirst(macros, DefsOfAll(files), r.value.macros)
  {
    WrittenAllMeaning(macros, files);
    BindIsFirst(macros, DefsOfAll(files));
  }

  // ---------------------------------------------------------------------------
  // Balance, over any files at all
  // ---------------------------------------------------------------------------

  // How many of a file's #ifndef lines stay open: one for every continued definition that starts
  // inside another, and one if the file ends inside one.
  function LeftOpen(file: seq<Line>, inside: bool): nat
    decreases |file|
  {
    if file == [] then (if inside then 1 else 0)
    else match file[0]
      case Blank => LeftOpen(file[1..], inside)
      case Define(_, _, cont) =>
        if cont then (if inside then 1 else 0) + LeftOpen(file[1..], true) else LeftOpen(file[1..], inside)
      case Plain(_, cont) => LeftOpen(file[1..], inside && cont)
  }

  function AllLeftOpen(files: seq<seq<Line>>): nat {
    if files == [] then 0 else AllLeftOpen(files[..|files| - 1]) + LeftOpen(files[|files| - 1], false)
  }

  // Every continued definition ends before another one starts, and before the end of the file.
  predicate Closes(file: seq<Line>, inside: bool)
    decreases |file|
  {
    if file == [] then !inside
    else match file[0]
      case Blank => Closes(file[1..], inside)
      case Define(_, _, cont) => if cont then !inside && Closes(file[1..], true) else Closes(file[1..], inside)
      case Plain(_, cont) => Closes(file[1..], inside && cont)
  }

  lemma {:induction false} LeftOpenIsZero(file: seq<Line>, inside: bool)
    ensures LeftOpen(file, inside) == 0 <==> Closes(file, inside)
    decreases |file|
  {
    if file != [] {
      match file[0]
      case Blank => LeftOpenIsZero(file[1..], inside);
      case Define(_, _, cont) => LeftOpenIsZero(file[1..], cont || inside);
      case Plain(_, cont) => LeftOpenIsZero(file[1..], inside && cont);
    }
  }

  lemma OpenDefine(s: Pre, line: Line)
    requires line.Define?
    ensures var r := ProcessAll(s, [Note, IfndefLine(line.name), Copy(line)]);
      r.Some? && |r.value.conds| == |s.conds| + 1 && (!line.cont ==> r.value.glue == NoGlue)
  {
    var s1 := Process(s, Note).value;
    var s2 := Process(s1, IfndefLine(line.name)).value;
    Chain(s, s1, Note, [IfndefLine(line.name), Copy(line)]);
    Chain(s1, s2, IfndefLine(line.name), [Copy(line)]);
    Chain(s2, Process(s2, Copy(line)).value, Copy(line), []);
    assert [Note] + [IfndefLine(line.name), Copy(line)] == [Note, IfndefLine(line.name), Copy(line)];
    assert [IfndefLine(line.name)] + [Copy(line)] == [IfndefLine(line.name), Copy(line)];
    assert [Copy(line)] + [] == [Copy(line)];
  }

  lemma CloseDefine(s: Pre)
    requires s.glue == NoGlue && s.conds != []
    ensures var r := ProcessAll(s, [EndifLine, Note]);
      r.Some? && |r.value.conds| == |s.conds| - 1 && r.value.glue == NoGlue
  {
    var s1 := Process(s, EndifLine).value;
    Chain(s, s1, EndifLine, [Note]);
    Chain(s1, s1, Note, []);
    assert [EndifLine] + [Note] == [EndifLine, Note];
    assert [Note] + [] == [Note];
  }

  lemma LastLine(s: Pre, line: Line)
    requires line.Plain? && !line.cont && s.conds != []
    ensures var r := ProcessAll(s, [Copy(line), Empty, EndifLine, Note]);
      r.Some? && |r.value.conds| == |s.conds| - 1
  {
    var s1 := Process(s, Copy(line)).value;
    Chain(s, s1, Copy(line), [Empty, EndifLine, Note]);
    Chain(s1, s1, Empty, [EndifLine, Note]);
    CloseDefine(s1);
    assert [Copy(line)] + [Empty, EndifLine, Note] == [Copy(line), Empty, EndifLine, Note];
    assert [Empty] + [EndifLine, Note] == [Empty, EndifLine, Note];
  }

  // From any state of the preprocessor, a file adds what it leaves open.
  lemma {:induction false} WrittenBalance(s: Pre, file: seq<Line>, inside: bool)
    requires inside ==> s.conds != []
    ensures var r := ProcessAll(s, Written(file, inside));
      r.Some? && |r.value.conds| == |s.conds| - (if inside then 1 else 0) + LeftOpen(file, inside)
    decreases |file|
  {
    if file != [] {
      var line, rest := file[0], file[1..];
      match line
      case Blank => WrittenBalance(s, rest, inside);
      case Define(name, _, cont) =>
        var start := [Note, IfndefLine(name), Copy(line)];
        OpenDefine(s, line);
        var s1 := ProcessAll(s, start).value;
        if cont {
          ProcessAppend(s, start, Written(rest, true));
          WrittenBalance(s1, rest, true);
        } else {
          CloseDefine(s1);
          ProcessAppend(s, start, [EndifLine, Note] + Written(rest, inside));
          ProcessAppend(s1, [EndifLine, Note], Written(rest, inside));
          WrittenBalance(ProcessAll(s1, [EndifLine, Note]).value, rest, inside);
        }
      case Plain(_, cont) =>
        if !inside {
          WrittenBalance(s, rest, false);
        } else if cont {
          Chain(s, Process(s, Copy(line)).value, Copy(line), Written(rest, true));
          WrittenBalance(Process(s, Copy(line)).value, rest, true);
        } else {
          var end := [Copy(line), Empty, EndifLine, Note];
          LastLine(s, line);
          ProcessAppend(s, end, Written(rest, false));
          WrittenBalance(ProcessAll(s, end).value, rest, false);
        }
    }
  }

  lemma {:induction false} WrittenAllBalance(macros: Macros, files: seq<seq<Line>>)
    ensures var r := ProcessAll(Pre(macros, [], NoGlue), WrittenAll(files));
      r.Some? && |r.value.conds| == AllLeftOpen(files)
    ensures AllLeftOpen(files) == 0 <==> forall i :: 0 <= i < |files| ==> Closes(files[i], false)
  {
    if files != [] {
      var n := |files| - 1;
      var s := Pre(macros, [], NoGlue);
      WrittenAllBalance(macros, files[..n]);
      ProcessAppend(s, WrittenAll(files[..n]), Written(files[n], false));
      WrittenBalance(ProcessAll(s, WrittenAll(files[..n])).value, files[n], false);
      LeftOpenIsZero(files[n], false);
      assert forall i :: 0 <= i < n ==> files[..n][i] == files[i];
    }
  }

  // For every list of files, without any condition: no #endif is ever unmatched, and the output
  // is balanced exactly when every continued definition ends before another one starts and before
  // its file does.
  lemma {:induction false} BalancedExactly(macros: Macros, files: seq<seq<Line>>)
    ensures var r := ProcessAll(Pre(macros, [], NoGlue), WrittenAll(files));
      r.Some? && (r.value.conds == [] <==> forall i :: 0 <= i < |files| ==> Closes(files[i], false))
  {
    WrittenAllBalance(macros, files);
  }

  // A blank line inside a continued definition leaves its #ifndef open.
  const BLANK_INSIDE := [Define("A", "x \\", true), Blank, Define("B", "y", false)]

  lemma BlankInsideUnbalances()
    ensures !Clean(BLANK_INSIDE, false)
    ensures var r := ProcessAll(Pre(map[], [], NoGlue), Written(BLANK_INSIDE, false));
      r.Some? && r.value.conds == [true]
  {
    var a, b := BLANK_INSIDE[0], BLANK_INSIDE[2];
    assert BLANK_INSIDE[1..] == [Blank, b] && [Blank, b][1..] == [b] && [b][1..] == [];
    assert Written([b], true) == [Note, IfndefLine("B"), Copy(b)] + [EndifLine, Note];
    assert Written(BLANK_INSIDE, false) == [Note, IfndefLine("A"), Copy(a)] + Written([b], true);
    ProcessStart(map[], "A", "x \\", true);
    var s := At(map[], Some(Def("A", ["x \\"])));
    ProcessAppend(At(map[], None), [Note, IfndefLine("A"), Copy(a)], Written([b], true));
    var m: Macros := map["A" := ["x \\", ""]];
    var s1 := Pre(m, [true], NoGlue);
    var s2 := Pre(m, [true, true], NoGlue);
    var s3 := Pre(m["B" := ["y"]], [true, true], NoGlue);
    var s4 := Pre(m["B" := ["y"]], [true], NoGlue);
    assert ["x \\"] + [""] == ["x \\", ""];
    assert Process(s, Note) == Some(s1);
    assert [true] + [true] == [true, true];
    assert Process(s1, IfndefLine("B")) == Some(s2);
    assert Process(s2, Copy(b)) == Some(s3);
    assert [true, true][..1] == [true];
    assert Process(s3, EndifLine) == Some(s4) && Process(s4, Note) == Some(s4);
    Chain(s, s1, Note, [IfndefLine("B"), Copy(b), EndifLine, Note]);
    Chain(s1, s2, IfndefLine("B"), [Copy(b), EndifLine, Note]);
    Chain(s2, s3, Copy(b), [EndifLine, Note]);
    Chain(s3, s4, EndifLine, [Note]);
    Chain(s4, s4, Note, []);
    assert Written([b], true) == [Note] + [IfndefLine("B"), Copy(b), EndifLine, Note];
    assert [IfndefLine("B"), Copy(b), EndifLine, Note] == [IfndefLine("B")] + [Copy(b), EndifLine, Note];
  }

  lemma {:induction false} Chain(s: Pre, s': Pre, l: OutLine, rest: seq<OutLine>)
    requires Process(s, l) == Some(s')
    ensures ProcessAll(s, [l] + rest) == ProcessAll(s', rest)
  {
    assert ([l] + rest)[1..] == rest;
  }
}
