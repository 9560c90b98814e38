// What guarded extraction means to a C preprocessor.
module ExtractorMeaning {
  import opened Machine
  import opened ExtractorRegions
  import opened ExtractorLaminar
  import opened ExtractorCpp
  import opened ExtractorLines

  // ---------------------------------------------------------------------------
  // Extraction
  // ---------------------------------------------------------------------------

  function Decimal(n: nat): string {
    var digit := ["0", "1", "2", "3", "4", "5", "6", "7", "8", "9"][n % 10];
    if n < 10 then digit else Decimal(n / 10) + digit
  }

  function DecimalValue(s: string): int {
    if s == "" then 0 else 10 * DecimalValue(s[..|s| - 1]) + (s[|s| - 1] as int - '0' as int)
  }

  // The numbers of the lines can be read in the comment.
  lemma {:induction false} DecimalReadsBack(n: nat)
    ensures DecimalValue(Decimal(n)) == n
  {
    if n >= 10 {
      DecimalReadsBack(n / 10);
      assert Decimal(n)[..|Decimal(n)| - 1] == Decimal(n / 10);
    }
  }

  function NameLine(iFile: string): string {
    " " + iFile + " \n"
  }

  function RangeLine(st: nat, en: nat): string {
    " startLine: " + Decimal(st) + " endLine: " + Decimal(en) + "\n"
  }

  function CommentText(iFile: string, st: nat, en: nat): string {
    "/* Extracted from \n" + NameLine(iFile) + RangeLine(st, en) + " */ \n"
  }

  // The lines of the comment; a file name with a line break takes more than one.
  function Comment(iFile: string, st: nat, en: nat): seq<string> {
    SplitLines(CommentText(iFile, st, en))
  }

  function Guard(tag: Tag, name: string): string {
    TagText(tag) + " " + name + "\n"
  }

  const END_GUARD := "#endif \n"

  // The lines st..en of the file, counted from 1.
  function Range(lines: seq<string>, st: nat, en: nat): seq<string>
    requires 1 <= st <= en <= |lines|
  {
    lines[st - 1..en]
  }

  // The block written for the lines st..en, which begins with a comment inside the guard.
  function Extracted(comment: seq<string>, lines: seq<string>, pres: seq<Region>, st: nat, en: nat): seq<string>
    requires 1 <= st <= en <= |lines|
  {
    Guarded(FirstContaining(pres, st, en), comment + Range(lines, st, en))
  }

  function Guarded(guard: Option<Region>, body: seq<string>): seq<string> {
    match guard
    case None => body
    case Some(r) => [Guard(r.tag, r.name)] + body + [END_GUARD]
  }

  // Writes the lines st..en, under the guard of the region that contains them.
  method ExtractAndDump(iFile: string, lines: seq<string>, pres: seq<Region>, st: nat, en: nat)
    returns (out: seq<string>)
    requires 1 <= st <= en <= |lines|
    ensures out == Extracted(Comment(iFile, st, en), lines, pres, st, en)
  {
    var guard: Option<Region> := None;
    if pres != [] {
      guard := ContainedInPreprocessor(pres, st, en);
    }
    out := Dump(Comment(iFile, st, en), lines, guard, st, en);
  }

  method Dump(comment: seq<string>, lines: seq<string>, guard: Option<Region>, st: nat, en: nat)
    returns (out: seq<string>)
    requires 1 <= st <= en <= |lines|
    ensures out == Guarded(guard, comment + Range(lines, st, en))
  {
    if guard.Some? {
      out := [Guard(guard.value.tag, guard.value.name)];
      out := CopyRange(out, comment, lines, st, en);
      out := out + [END_GUARD];
    } else {
      out := CopyRange([], comment, lines, st, en);
    }
  }

  // Skips to line st, then writes the comment and the lines up to en.
  method CopyRange(before: seq<string>, comment: seq<string>, lines: seq<string>, st: nat, en: nat)
    returns (out: seq<string>)
    requires 1 <= st <= en <= |lines|
    ensures out == before + (comment + Range(lines, st, en))
  {
    var lineCt := 1;
    while lineCt < st
      invariant 1 <= lineCt <= st
    {
      lineCt := lineCt + 1;
    }
    out := before + comment;
    while lineCt <= en
      invariant st <= lineCt <= en + 1
      invariant out == before + (comment + lines[st - 1..lineCt - 1])
    {
      out := out + [lines[lineCt - 1]];
      lineCt := lineCt + 1;
    }
  }

  // ---------------------------------------------------------------------------
  // The preprocessor on #ifdef, #ifndef, #else and #endif
  // ---------------------------------------------------------------------------

  // An open conditional: how it was opened, on which macro, and whether its #else has come.
  datatype Cond = Cond(opener: Tag, name: string, inElse: bool)

  predicate Holds(c: Cond, defined: set<string>) {
    (c.name in defined) == ((c.opener == IfdefTag) != c.inElse)
  }

  predicate AllHold(cs: seq<Cond>, defined: set<string>) {
    forall i :: 0 <= i < |cs| ==> Holds(cs[i], defined)
  }

  // None for a second #else, an unmatched #else or #endif, and for directives outside the
  // fragment.
  function CondLine(cs: seq<Cond>, d: Directive): Option<seq<Cond>> {
    match d
    case Ifdef(name) => Some(cs + [Cond(IfdefTag, name, false)])
    case Ifndef(name) => Some(cs + [Cond(IfndefTag, name, false)])
    case Else =>
      if cs == [] || cs[|cs| - 1].inElse then None
      else Some(cs[..|cs| - 1] + [cs[|cs| - 1].(inElse := true)])
    case Endif => if cs == [] then None else Some(cs[..|cs| - 1])
    case Text => Some(cs)
    case _ => None
  }

  // The conditionals open after the directives.
  function CondsAfter(cs: seq<Cond>, ds: seq<Directive>): Option<seq<Cond>>
    decreases |ds|
  {
    if ds == [] then Some(cs)
    else match CondLine(cs, ds[0])
      case None => None
      case Some(cs') => CondsAfter(cs', ds[1..])
  }

  // The text lines that are compiled when exactly the given macros are defined.
  function Compiled(cs: seq<Cond>, lines: seq<string>, defined: set<string>): seq<string>
    decreases |lines|
  {
    if lines == [] then []
    else match CondLine(cs, CppClassify(lines[0]))
      case None => []
      case Some(cs') =>
        Kept(cs, lines[0], defined) + Compiled(cs', lines[1..], defined)
  }

  lemma {:induction false} CondsAppend(cs: seq<Cond>, a: seq<Directive>, b: seq<Directive>)
    ensures CondsAfter(cs, a + b) ==
      match CondsAfter(cs, a) case None => None case Some(cs') => CondsAfter(cs', b)
    decreases |a|
  {
    if a == [] {
      assert a + b == b;
    } else {
      AppendTail(a, b);
      match CondLine(cs, a[0])
      case None =>
      case Some(cs') => CondsAppend(cs', a[1..], b);
    }
  }

  lemma {:induction false} CompiledAppend(cs: seq<Cond>, a: seq<string>, b: seq<string>, defined: set<string>)
    requires CondsAfter(cs, Reading(a)).Some?
    ensures Compiled(cs, a + b, defined)
         == Compiled(cs, a, defined) + Compiled(CondsAfter(cs, Reading(a)).value, b, defined)
    decreases |a|
  {
    if a == [] {
      assert a + b == b;
    } else {
      var cs' := CondLine(cs, CppClassify(a[0])).value;
      ReadingTail(a);
      AppendTail(a, b);
      CompiledAppend(cs', a[1..], b, defined);
      var after := CondsAfter(cs', Reading(a[1..])).value;
      Assoc(Kept(cs, a[0], defined), Compiled(cs', a[1..], defined), Compiled(after, b, defined));
    }
  }

  // What is kept of a line.
  function Kept(cs: seq<Cond>, line: string, defined: set<string>): seq<string> {
    if CppClassify(line).Text? && AllHold(cs, defined) then [line] else []
  }

  // Lines that are well nested by themselves mean the same under open conditionals that hold,
  // and nothing under one that does not.
  lemma {:induction false} UnderConds(base: seq<Cond>, cs: seq<Cond>, lines: seq<string>, defined: set<string>)
    requires CondsAfter(cs, Reading(lines)).Some?
    ensures CondsAfter(base + cs, Reading(lines)) == Some(base + CondsAfter(cs, Reading(lines)).value)
    ensures Compiled(base + cs, lines, defined) == if AllHold(base, defined) then Compiled(cs, lines, defined) else []
    decreases |lines|
  {
    if lines != [] {
      var d := CppClassify(lines[0]);
      ReadingTail(lines);
      var cs' := CondLine(cs, d).value;
      CondLineUnder(base, cs, d);
      AllHoldSplit(base, cs, defined);
      UnderConds(base, cs', lines[1..], defined);
    }
  }

  lemma CondLineUnder(base: seq<Cond>, cs: seq<Cond>, d: Directive)
    requires CondLine(cs, d).Some?
    ensures CondLine(base + cs, d) == Some(base + CondLine(cs, d).value)
  {
    var cs' := CondLine(cs, d).value;
    if d.Else? || d.Endif? {
      assert (base + cs)[..|base + cs| - 1] == base + cs[..|cs| - 1];
    }
    if d.Else? {
      assert base + (cs[..|cs| - 1] + [cs[|cs| - 1].(inElse := true)])
          == (base + cs)[..|base + cs| - 1] + [cs[|cs| - 1].(inElse := true)];
    }
    if d.Ifdef? || d.Ifndef? {
      assert base + cs' == base + cs + [cs'[|cs|]];
    }
  }

  lemma AllHoldSplit(a: seq<Cond>, b: seq<Cond>, defined: set<string>)
    ensures AllHold(a + b, defined) <==> AllHold(a, defined) && AllHold(b, defined)
  {
    forall i | 0 <= i < |a|
      ensures (a + b)[i] == a[i]
    {
    }
    forall i | 0 <= i < |b|
      ensures (a + b)[|a| + i] == b[i]
    {
    }
  }

  // ---------------------------------------------------------------------------
  // The guard line means what its region says
  // ---------------------------------------------------------------------------

  lemma {:induction false} EndGuardIsDirective()
    ensures CppClassify(END_GUARD) == Endif
  {
    DirectiveAt(END_GUARD, "endif", " \n");
  }

  // A nonempty run of text lines.
  ghost predicate IsText(lines: seq<string>) {
    lines != [] && forall i :: 0 <= i < |lines| ==> CppClassify(lines[i]) == Text
  }

  // The comment holds no directive exactly when no line of the file name makes one.
  lemma CommentIsText(iFile: string, st: nat, en: nat)
    ensures IsText(Comment(iFile, st, en)) <==> NameIsText(iFile)
  {
    var name, last := SplitLines(NameLine(iFile)), RangeLine(st, en);
    CommentLines(iFile, st, en);
    var all := Comment(iFile, st, en);
    CommentLineIsText("/* Extracted from \n");
    CommentLineIsText(last);
    CommentLineIsText(" */ \n");
    assert forall i :: 0 <= i < |name| ==> all[i + 1] == name[i];
    assert all[0] == "/* Extracted from \n" && all[|name| + 1] == last && all[|name| + 2] == " */ \n";
  }

  ghost predicate NameIsText(iFile: string) {
    forall i :: 0 <= i < |SplitLines(NameLine(iFile))| ==> CppClassify(SplitLines(NameLine(iFile))[i]) == Text
  }

  lemma CommentLines(iFile: string, st: nat, en: nat)
    ensures Comment(iFile, st, en)
         == ["/* Extracted from \n"] + SplitLines(NameLine(iFile)) + [RangeLine(st, en), " */ \n"]
  {
    var first, name, last := "/* Extracted from \n", NameLine(iFile), RangeLine(st, en);
    var rest := last + " */ \n";
    assert CommentText(iFile, st, en) == first + (name + rest);
    SplitOne(first, name + rest);
    SplitAppend(name, rest);
    LastLines(st, en);
  }

  lemma LastLines(st: nat, en: nat)
    ensures SplitLines(RangeLine(st, en) + " */ \n") == [RangeLine(st, en), " */ \n"]
  {
    RangeIsLine(st, en);
    SplitOne(RangeLine(st, en), " */ \n");
    assert " */ \n" + "" == " */ \n";
    SplitOne(" */ \n", "");
  }

  lemma RangeIsLine(st: nat, en: nat)
    ensures IsLine(RangeLine(st, en))
  {
    DecimalIsLine(st);
    DecimalIsLine(en);
  }

  lemma {:induction false} DecimalIsLine(n: nat)
    ensures forall i :: 0 <= i < |Decimal(n)| ==> Decimal(n)[i] != '\n'
  {
    if n >= 10 {
      DecimalIsLine(n / 10);
    }
  }

  // A line that starts, after blanks, with something other than # is text.
  lemma CommentLineIsText(line: string)
    requires |line| > 1 && line[0] != '#' && (IsSpace(line[0]) ==> !IsSpace(line[1]) && line[1] != '#')
    ensures CppClassify(line) == Text
  {
    if IsSpace(line[0]) {
      assert SkipSpaces(line[1..]) == line[1..];
    }
  }

  // So for every path that has no line break and does not start with a blank or a #.
  lemma PathIsText(iFile: string)
    requires iFile != "" && iFile[0] != '#' && !IsSpace(iFile[0]) && '\n' !in iFile
    ensures NameIsText(iFile)
  {
    assert NameLine(iFile) + "" == NameLine(iFile);
    SplitOne(NameLine(iFile), "");
    CommentLineIsText(NameLine(iFile));
  }

  lemma {:induction false} TextKeepsConds(ds: seq<Directive>, cs: seq<Cond>)
    requires forall i :: 0 <= i < |ds| ==> ds[i] == Text
    ensures CondsAfter(cs, ds) == Some(cs)
    decreases |ds|
  {
    if ds != [] {
      TextKeepsConds(ds[1..], cs);
    }
  }

  lemma {:induction false} TextIsKept(lines: seq<string>, cs: seq<Cond>, defined: set<string>)
    requires forall i :: 0 <= i < |lines| ==> CppClassify(lines[i]) == Text
    ensures Compiled(cs, lines, defined) == if AllHold(cs, defined) then lines else []
    decreases |lines|
  {
    if lines != [] {
      TextIsKept(lines[1..], cs, defined);
      OneMoreText(lines, cs, defined);
    }
  }

  lemma OneMoreText(lines: seq<string>, cs: seq<Cond>, defined: set<string>)
    requires lines != [] && CppClassify(lines[0]) == Text
    requires Compiled(cs, lines[1..], defined) == if AllHold(cs, defined) then lines[1..] else []
    ensures Compiled(cs, lines, defined) == if AllHold(cs, defined) then lines else []
  {
    assert lines == [lines[0]] + lines[1..];
  }

  // A block between a line that opens the conditional c and a line that closes it.
  lemma GuardedBlock(open: string, close: string, c: Cond, body: seq<string>, defined: set<string>)
    requires CondLine([], CppClassify(open)) == Some([c]) && !CppClassify(open).Text? && CppClassify(close) == Endif
    requires CondsAfter([], Reading(body)) == Some([])
    ensures var block := [open] + body + [close];
      && CondsAfter([], Reading(block)) == Some([])
      && Compiled([], block, defined) == if Holds(c, defined) then Compiled([], body, defined) else []
  {
    OneLine([], open);
    OneLine([c], close);
    UnderConds([c], [], body, defined);
    assert [c] + [] == [c];
    ReadingAppend([open], body);
    CondsAppend([], Reading([open]), Reading(body));
    CompiledAppend([], [open], body, defined);
    assert CondLine([c], Endif) == Some([]);
    ReadingAppend([open] + body, [close]);
    CondsAppend([], Reading([open] + body), Reading([close]));
    CompiledAppend([], [open] + body, [close], defined);
    assert Compiled([], [open], defined) == [] && Compiled([c], [close], defined) == [];
    OneCond(c, defined);
  }

  lemma OneLine(cs: seq<Cond>, line: string)
    ensures CondsAfter(cs, Reading([line])) == CondLine(cs, CppClassify(line))
    ensures forall defined :: !CppClassify(line).Text? ==> Compiled(cs, [line], defined) == []
  {
    ReadingTail([line]);
    assert [line][1..] == [] && Reading([]) == [];
  }

  lemma OneCond(c: Cond, defined: set<string>)
    ensures AllHold([c], defined) <==> Holds(c, defined)
  {
    assert [c][0] == c;
  }

  // ---------------------------------------------------------------------------
  // The guard of a range, as the preprocessor reads it
  // ---------------------------------------------------------------------------

  // The conditionals open before line st.
  function Around(lines: seq<string>, st: nat): seq<Cond>
    requires 1 <= st <= |lines|
  {
    OpenAt(Reading(lines), st)
  }

  function OpenAt(ds: seq<Directive>, st: nat): seq<Cond>
    requires 1 <= st <= |ds|
  {
    match CondsAfter([], ds[..st - 1]) case Some(cs) => cs case None => []
  }

  // The regions of the file; none where Python raises an exception.
  function Regions(lines: seq<string>): seq<Region> {
    match ScanTo(Views(lines), |lines|) case Some(s) => s.pres case None => []
  }

  // The range can be preprocessed where it stands, and it splits no conditional. How the extractor
  // reads the lines does not matter, nor what comes after the range.
  ghost predicate Readable(lines: seq<string>, st: nat, en: nat) {
    && 1 <= st <= en <= |lines|
    && CondsAfter([], Reading(lines)[..st - 1]).Some?
    && CondsAfter([], Reading(Range(lines, st, en))) == Some([])
  }

  // The condition in the line that guards a region with this tag and name.
  function GuardCond(tag: Tag, name: string): Option<Cond> {
    match CppClassify(Guard(tag, name))
    case Ifdef(macro) => Some(Cond(IfdefTag, macro, false))
    case Ifndef(macro) => Some(Cond(IfndefTag, macro, false))
    case _ => None
  }

  // The condition that the extractor puts around the range.
  function GuardOf(lines: seq<string>, st: nat, en: nat): Option<Cond> {
    match FirstContaining(Regions(lines), st, en)
    case Some(r) => GuardCond(r.tag, r.name)
    case None => None
  }

  // The line spells the condition kept for the region.
  lemma GuardSpells(tag: Tag, name: string)
    requires IsToken(name)
    ensures Spells(Guard(tag, name),
                   match tag case IfTag => If(name) case IfdefTag => Ifdef(name) case IfndefTag => Ifndef(name))
  {
    var word := match tag case IfTag => "#if " case IfdefTag => "#ifdef " case IfndefTag => "#ifndef ";
    var rest := " " + name + "\n";
    assert Guard(tag, name) == word + rest;
    assert Guard(tag, name)[..|word|] == word && Guard(tag, name)[|word|..] == rest;
    assert WordAt(rest, name, 1);
  }

  // A tag and a name that make a guard line.
  predicate Guards(tag: Tag, name: string) {
    tag != IfTag && MacroName("  " + name + "\n").Some?
  }

  lemma GuardsReads(tag: Tag, name: string)
    requires tag != IfTag
    ensures GuardCond(tag, name) ==
      match MacroName("  " + name + "\n") case Some(macro) => Some(Cond(tag, macro, false)) case None => None
  {
    var rest := "  " + name + "\n";
    var word := if tag == IfdefTag then "ifdef" else "ifndef";
    assert Guard(tag, name) == "#" + word + rest;
    DirectiveAt(Guard(tag, name), word, rest);
  }

  lemma {:induction false} TakeIdentOfToken(s: string)
    ensures TakeIdent(TakeToken(s) + "\n") == TakeIdent(s)
  {
    if s != "" && !IsSpace(s[0]) {
      AppendTail([s[0]] + TakeToken(s[1..]), "\n");
      assert ([s[0]] + TakeToken(s[1..]))[1..] == TakeToken(s[1..]);
      TakeIdentOfToken(s[1..]);
    }
  }

  // The first word after a directive names the macro that the preprocessor reads there.
  lemma WordReadsBack(rest: string)
    requires FirstToken(rest).Some?
    ensures MacroName("  " + FirstToken(rest).value + "\n") == MacroName(" " + rest)
  {
    var word := FirstToken(rest).value;
    TakeIdentOfToken(SkipSpaces(rest));
    assert (" " + rest)[1..] == rest;
    SkipBlanks(word);
  }

  lemma SkipBlanks(word: string)
    requires IsToken(word)
    ensures SkipSpaces("  " + word + "\n") == word + "\n"
  {
    var line := "  " + word + "\n";
    assert line[1..] == " " + word + "\n" && line[1..][1..] == word + "\n";
    assert (word + "\n")[0] == word[0];
    assert SkipSpaces(word + "\n") == word + "\n";
    assert SkipSpaces(line) == SkipSpaces(line[1..]);
  }

  lemma MacroReadsBack(name: string)
    requires IsIdentifier(name)
    ensures MacroName("  " + name + "\n") == Some(name)
  {
    SkipBlanks(name);
    TakeIdentStops(name, "\n");
  }

  // Lines of the fragment: no #if, no #elif, no directive without its word.
  predicate InFragment(d: Directive) {
    d.Ifdef? || d.Ifndef? || d.Else? || d.Endif? || d.Text?
  }

  lemma {:induction false} CondsInFragment(cs: seq<Cond>, ds: seq<Directive>, i: nat)
    requires CondsAfter(cs, ds).Some? && i < |ds|
    ensures InFragment(ds[i])
    decreases |ds|
  {
    if i > 0 {
      CondsInFragment(CondLine(cs, ds[0]).value, ds[1..], i - 1);
    }
  }

  lemma SliceInFragment(ds: seq<Directive>, a: nat, b: nat, i: nat)
    requires a <= i < b <= |ds| && CondsAfter([], ds[a..b]).Some?
    ensures InFragment(ds[i])
  {
    CondsInFragment([], ds[a..b], i - a);
  }

  lemma ReadingRange(lines: seq<string>, st: nat, en: nat)
    requires 1 <= st <= en <= |lines|
    ensures Reading(Range(lines, st, en)) == Reading(lines)[st - 1..en]
  {
  }

  lemma ReadableInFragment(lines: seq<string>, st: nat, en: nat, ds: seq<Directive>, i: nat)
    requires Readable(lines, st, en) && ds == Reading(lines) && i < en
    ensures InFragment(ds[i])
  {
    if i < st - 1 {
      assert ds[0..st - 1] == ds[..st - 1];
      SliceInFragment(ds, 0, st - 1, i);
    } else {
      ReadingRange(lines, st, en);
      SliceInFragment(ds, st - 1, en, i);
    }
  }

  predicate OpensGuard(d: Directive) {
    match d
    case Ifdef(name) => Guards(IfdefTag, name)
    case Ifndef(name) => Guards(IfndefTag, name)
    case _ => InFragment(d)
  }

  // What the extractor takes for the opening of a conditional makes a guard line.
  lemma OpeningGuards(line: string)
    requires InFragment(CppClassify(line))
    ensures OpensGuard(Classify(line))
  {
    if "#ifdef " <= line {
      IfdefGuards(line);
    } else if "#if " <= line {
      StartsWith(line, "if");
    } else if "#ifndef " <= line {
      IfndefGuards(line);
    } else if "#elif " <= line {
      StartsWith(line, "elif");
    }
  }

  lemma IfdefGuards(line: string)
    requires "#ifdef " <= line && InFragment(CppClassify(line))
    ensures FirstToken(line[7..]).Some? && Guards(IfdefTag, FirstToken(line[7..]).value)
  {
    StartsWith(line, "ifdef");
    assert line[6] == "#ifdef "[6];
    assert line[6..] == " " + line[7..];
    MacroIsWord(line[7..]);
    WordReadsBack(line[7..]);
  }

  lemma IfndefGuards(line: string)
    requires "#ifndef " <= line && InFragment(CppClassify(line))
    ensures FirstToken(line[8..]).Some? && Guards(IfndefTag, FirstToken(line[8..]).value)
  {
    StartsWith(line, "ifndef");
    assert line[7] == "#ifndef "[7];
    assert line[7..] == " " + line[8..];
    MacroIsWord(line[8..]);
    WordReadsBack(line[8..]);
  }

  lemma MacroIsWord(rest: string)
    requires MacroName(" " + rest).Some?
    ensures FirstToken(rest).Some?
  {
    assert (" " + rest)[1..] == rest;
  }

  // Whatever was opened up to line en makes a guard line.
  ghost predicate AllGuard(s: Scan, en: nat) {
    && (forall i :: 0 <= i < |s.stack| && s.stack[i].start <= en ==> Guards(s.stack[i].tag, s.stack[i].name))
    && (forall i :: 0 <= i < |s.pres| && s.pres[i].start <= en ==> Guards(s.pres[i].tag, s.pres[i].name))
  }

  lemma GuardsLine(s: Scan, d: Directive, k: nat, en: nat)
    requires k > 0 && AllGuard(s, en) && ScanInv(s, k - 1) && ScanLine(s, d, k).Some?
    requires k <= en ==> OpensGuard(d)
    ensures AllGuard(ScanLine(s, d, k).value, en)
  {
  }

  ghost predicate AllOpenGuards(ds: seq<Directive>, en: nat)
    requires en <= |ds|
  {
    forall i :: 0 <= i < en ==> OpensGuard(ds[i])
  }

  lemma {:induction false} ReadableGuards(lines: seq<string>, st: nat, en: nat)
    requires Readable(lines, st, en)
    ensures AllOpenGuards(Views(lines), en)
  {
    var ds := Views(lines);
    forall i | 0 <= i < en
      ensures OpensGuard(ds[i])
    {
      ReadableInFragment(lines, st, en, Reading(lines), i);
      LineOpensGuard(lines, i, ds[i]);
    }
  }

  lemma {:induction false} LineOpensGuard(lines: seq<string>, i: nat, d: Directive)
    requires i < |lines| && d == Views(lines)[i] && InFragment(CppClassify(lines[i]))
    ensures OpensGuard(d)
  {
    ViewsAt(lines, i);
    OpeningGuards(lines[i]);
  }

  lemma {:induction false} ScanGuards(ds: seq<Directive>, en: nat, k: nat)
    requires en <= |ds| && AllOpenGuards(ds, en) && k <= |ds| && ScanTo(ds, k).Some?
    ensures AllGuard(ScanTo(ds, k).value, en)
  {
    if k > 0 {
      ScanGuards(ds, en, k - 1);
      ScanKeepsInv(ds, k - 1);
      GuardsLine(ScanTo(ds, k - 1).value, ds[k - 1], k, en);
    }
  }

  // The first line of every block that has a guard is an #ifdef or #ifndef of a macro, however the
  // extractor came by it.
  lemma {:induction false} GuardIsRead(lines: seq<string>, st: nat, en: nat)
    requires Readable(lines, st, en)
    ensures GuardOf(lines, st, en).Some? <==> FirstContaining(Regions(lines), st, en).Some?
  {
    var first := FirstContaining(Regions(lines), st, en);
    if first.Some? {
      ReadableGuards(lines, st, en);
      ScanGuards(Views(lines), en, |lines|);
      var i :| 0 <= i < |Regions(lines)| && Regions(lines)[i] == first.value;
      GuardsReads(first.value.tag, first.value.name);
    }
  }

  // ---------------------------------------------------------------------------
  // What a block means
  // ---------------------------------------------------------------------------

  // The block that the extractor writes for a range of a file.
  function Block(comment: seq<string>, lines: seq<string>, st: nat, en: nat): seq<string>
    requires 1 <= st <= en <= |lines|
  {
    Extracted(comment, lines, Regions(lines), st, en)
  }

  lemma BodyMeaning(comment: seq<string>, range: seq<string>, defined: set<string>)
    requires IsText(comment) && CondsAfter([], Reading(range)) == Some([])
    ensures CondsAfter([], Reading(comment + range)) == Some([])
    ensures Compiled([], comment + range, defined) == comment + Compiled([], range, defined)
  {
    TextKeepsConds(Reading(comment), []);
    TextIsKept(comment, [], defined);
    ReadingAppend(comment, range);
    CondsAppend([], Reading(comment), Reading(range));
    CompiledAppend([], comment, range, defined);
  }

  predicate GuardHolds(guard: Option<Cond>, defined: set<string>) {
    guard.Some? ==> Holds(guard.value, defined)
  }

  // Alone in a file, the block is well nested, and it keeps the comment and the inner text of
  // the range exactly when its guard holds.
  lemma {:induction false} BlockMeaning(comment: seq<string>, lines: seq<string>, st: nat, en: nat,
                                        defined: set<string>)
    requires Readable(lines, st, en) && IsText(comment)
    ensures CondsAfter([], Reading(Block(comment, lines, st, en))) == Some([])
    ensures Compiled([], Block(comment, lines, st, en), defined) ==
      if GuardHolds(GuardOf(lines, st, en), defined) then comment + Compiled([], Range(lines, st, en), defined) else []
  {
    GuardIsRead(lines, st, en);
    BodyMeaning(comment, Range(lines, st, en), defined);
    var r := FirstContaining(Regions(lines), st, en);
    if r.Some? {
      GuardBlock(r.value.tag, r.value.name, comment + Range(lines, st, en), defined);
    }
  }

  lemma GuardBlock(tag: Tag, name: string, body: seq<string>, defined: set<string>)
    requires GuardCond(tag, name).Some? && CondsAfter([], Reading(body)) == Some([])
    ensures var block := [Guard(tag, name)] + body + [END_GUARD];
      && CondsAfter([], Reading(block)) == Some([])
      && Compiled([], block, defined) ==
           if Holds(GuardCond(tag, name).value, defined) then Compiled([], body, defined) else []
  {
    EndGuardIsDirective();
    var c := GuardCond(tag, name).value;
    assert [] + [c] == [c];
    GuardedBlock(Guard(tag, name), END_GUARD, c, body, defined);
  }

  // What the preprocessor makes of the range where it stands in the file.
  function InPlace(lines: seq<string>, st: nat, en: nat, defined: set<string>): seq<string>
    requires 1 <= st <= en <= |lines|
  {
    Compiled(Around(lines, st), Range(lines, st, en), defined)
  }
  lemma InPlaceMeaning(lines: seq<string>, st: nat, en: nat, defined: set<string>)
    requires Readable(lines, st, en)
    ensures InPlace(lines, st, en, defined) ==
      if AllHold(Around(lines, st), defined) then Compiled([], Range(lines, st, en), defined) else []
  {
    var cs := Around(lines, st);
    UnderConds(cs, [], Range(lines, st, en), defined);
    assert cs + [] == cs;
  }
  // ---------------------------------------------------------------------------
  // When extraction preserves meaning
  // ---------------------------------------------------------------------------

  // The macro is defined exactly when the conditional keeps its lines.
  predicate WantsDefined(c: Cond) {
    (c.opener == IfdefTag) != c.inElse
  }

  predicate SameCond(a: Cond, b: Cond) {
    a.name == b.name && WantsDefined(a) == WantsDefined(b)
  }

  // No set of macros meets them all.
  predicate Contradicts(cs: seq<Cond>) {
    exists i, j :: 0 <= i < j < |cs| && cs[i].name == cs[j].name && WantsDefined(cs[i]) != WantsDefined(cs[j])
  }

  function Wanted(cs: seq<Cond>): set<string> {
    set i | 0 <= i < |cs| && WantsDefined(cs[i]) :: cs[i].name
  }

  lemma ContradictsExactly(cs: seq<Cond>)
    ensures Contradicts(cs) <==> forall defined: set<string> :: !AllHold(cs, defined)
  {
    if !Contradicts(cs) {
      WantedHolds(cs);
    }
    forall defined: set<string> | Contradicts(cs)
      ensures !AllHold(cs, defined)
    {
      var i, j :| 0 <= i < j < |cs| && cs[i].name == cs[j].name && WantsDefined(cs[i]) != WantsDefined(cs[j]);
      assert Holds(cs[i], defined) ==> !Holds(cs[j], defined);
    }
  }

  lemma WantedHolds(cs: seq<Cond>)
    requires !Contradicts(cs)
    ensures AllHold(cs, Wanted(cs))
  {
    forall j | 0 <= j < |cs|
      ensures Holds(cs[j], Wanted(cs))
    {
      assert forall i :: 0 <= i < |cs| && i != j && cs[i].name == cs[j].name ==>
          WantsDefined(cs[i]) == WantsDefined(cs[j]);
    }
  }

  // The guard asks what one of the conditionals asks.
  predicate Asks(cs: seq<Cond>, guard: Cond) {
    exists i :: 0 <= i < |cs| && SameCond(cs[i], guard)
  }

  // The guard holds whenever the conditionals do: they never do, there is no guard, or it asks what
  // one of them asks.
  predicate Entails(cs: seq<Cond>, guard: Option<Cond>) {
    Contradicts(cs) || guard.None? || Asks(cs, guard.value)
  }

  // Otherwise some set of macros meets the conditionals and not the guard.
  lemma Unasked(cs: seq<Cond>, guard: Cond) returns (defined: set<string>)
    requires !Contradicts(cs) && !Asks(cs, guard)
    ensures AllHold(cs, defined) && !Holds(guard, defined)
  {
    WantedHolds(cs);
    defined := if WantsDefined(guard) then Wanted(cs) else Wanted(cs) + {guard.name};
    forall i | 0 <= i < |cs|
      ensures Holds(cs[i], defined)
    {
      assert !SameCond(cs[i], guard) && Holds(cs[i], Wanted(cs));
    }
  }

  // Whenever the range is compiled in its file, the block keeps the same text.
  ghost predicate Preserved(comment: seq<string>, lines: seq<string>, st: nat, en: nat)
    requires 1 <= st <= en <= |lines|
  {
    forall defined: set<string> :: AllHold(Around(lines, st), defined) ==>
      Compiled([], Block(comment, lines, st, en), defined) == comment + InPlace(lines, st, en, defined)
  }

  // Whatever the extractor sees of the file: extraction preserves the meaning of a range that some
  // set of macros compiles exactly when the block has no guard, or one that asks what a conditional
  // around the range asks.
  lemma {:induction false} PreservedExactly(comment: seq<string>, lines: seq<string>, st: nat, en: nat)
    requires Readable(lines, st, en) && IsText(comment)
    ensures Preserved(comment, lines, st, en) <==> Entails(Around(lines, st), GuardOf(lines, st, en))
  {
    var cs, guard := Around(lines, st), GuardOf(lines, st, en);
    forall defined: set<string> | AllHold(cs, defined)
      ensures Compiled([], Block(comment, lines, st, en), defined) ==
        if GuardHolds(guard, defined) then comment + InPlace(lines, st, en, defined) else []
    {
      BlockMeaning(comment, lines, st, en, defined);
      InPlaceMeaning(lines, st, en, defined);
    }
    if !Entails(cs, guard) {
      var defined := Unasked(cs, guard.value);
      assert comment + InPlace(lines, st, en, defined) != [];
    }
    ContradictsExactly(cs);
  }

  // For all sets of macros the block is what the range is in its file: also nothing, when that is.
  ghost predicate Equivalent(comment: seq<string>, lines: seq<string>, st: nat, en: nat)
    requires 1 <= st <= en <= |lines|
  {
    forall defined: set<string> :: Compiled([], Block(comment, lines, st, en), defined) ==
      if AllHold(Around(lines, st), defined) then comment + InPlace(lines, st, en, defined) else []
  }

  // The conditionals and the guard ask the same.
  predicate SameQuestion(cs: seq<Cond>, guard: Option<Cond>) {
    && (cs == [] <==> guard.None?)
    && forall i :: 0 <= i < |cs| ==> SameCond(cs[i], guard.value)
  }

  // Otherwise some set of macros meets one and not the other.
  lemma OtherQuestion(cs: seq<Cond>, guard: Option<Cond>) returns (defined: set<string>)
    requires !SameQuestion(cs, guard)
    ensures AllHold(cs, defined) != GuardHolds(guard, defined)
  {
    if cs == [] {
      defined := if WantsDefined(guard.value) then {} else {guard.value.name};
    } else if guard.None? {
      defined := if WantsDefined(cs[0]) then {} else {cs[0].name};
      assert !Holds(cs[0], defined);
    } else {
      var i :| 0 <= i < |cs| && !SameCond(cs[i], guard.value);
      defined := Apart(cs[i], guard.value);
      assert !Holds(cs[i], defined);
    }
  }

  // Meets the second condition and not the first.
  function Apart(c: Cond, guard: Cond): (defined: set<string>)
    requires !SameCond(c, guard)
    ensures Holds(guard, defined) && !Holds(c, defined)
  {
    (if WantsDefined(guard) then {guard.name} else {}) +
    (if !WantsDefined(c) && c.name != guard.name then {c.name} else {})
  }

  // Block and range are equivalent exactly when there is neither conditional nor guard, or every
  // conditional around the range asks what the guard asks.
  lemma {:induction false} EquivalentExactly(comment: seq<string>, lines: seq<string>, st: nat, en: nat)
    requires Readable(lines, st, en) && IsText(comment)
    ensures Equivalent(comment, lines, st, en) <==> SameQuestion(Around(lines, st), GuardOf(lines, st, en))
  {
    var cs, guard := Around(lines, st), GuardOf(lines, st, en);
    forall defined: set<string>
      ensures var text := comment + Compiled([], Range(lines, st, en), defined);
        && text != []
        && Compiled([], Block(comment, lines, st, en), defined) == (if GuardHolds(guard, defined) then text else [])
        && (AllHold(cs, defined) ==> comment + InPlace(lines, st, en, defined) == text)
        && (SameQuestion(cs, guard) ==> AllHold(cs, defined) == GuardHolds(guard, defined))
    {
      BlockMeaning(comment, lines, st, en, defined);
      InPlaceMeaning(lines, st, en, defined);
      SameQuestionHolds(cs, guard, defined);
    }
    if !SameQuestion(cs, guard) {
      var defined := OtherQuestion(cs, guard);
      assert Compiled([], Block(comment, lines, st, en), defined) !=
        if AllHold(cs, defined) then comment + InPlace(lines, st, en, defined) else [];
    }
  }

  lemma SameQuestionHolds(cs: seq<Cond>, guard: Option<Cond>, defined: set<string>)
    ensures SameQuestion(cs, guard) ==> AllHold(cs, defined) == GuardHolds(guard, defined)
  {
    if SameQuestion(cs, guard) && cs != [] {
      assert SameCond(cs[0], guard.value);
      assert Holds(cs[0], defined) == Holds(guard.value, defined);
    }
  }

  // ---------------------------------------------------------------------------
  // No closing line is seen
  // ---------------------------------------------------------------------------

  lemma {:induction false} NoRegions(ds: seq<Directive>, k: nat)
    requires k <= |ds| && forall i :: 0 <= i < |ds| ==> !ClosesFrame(ds[i])
    ensures ScanTo(ds, k).Some? ==> ScanTo(ds, k).value.pres == []
  {
    if k > 0 {
      NoRegions(ds, k - 1);
    }
  }

  lemma NoGuard(lines: seq<string>, st: nat, en: nat)
    requires forall i :: 0 <= i < |lines| ==> !ClosesFrame(Classify(lines[i]))
    ensures GuardOf(lines, st, en) == None
  {
    forall i | 0 <= i < |lines|
      ensures !ClosesFrame(Views(lines)[i])
    {
      ViewsAt(lines, i);
    }
    NoRegions(Views(lines), |lines|);
  }

  // Where the extractor sees no #else, #elif or #endif, as when each of them ends its line, no
  // block has a guard: all text is preserved, and compiled also where the range is not.
  lemma UnseenClosingsPreserve(comment: seq<string>, lines: seq<string>, st: nat, en: nat)
    requires Readable(lines, st, en) && IsText(comment)
    requires forall i :: 0 <= i < |lines| ==> !ClosesFrame(Classify(lines[i]))
    ensures Preserved(comment, lines, st, en)
    ensures Equivalent(comment, lines, st, en) <==> Around(lines, st) == []
  {
    NoGuard(lines, st, en);
    PreservedExactly(comment, lines, st, en);
    EquivalentExactly(comment, lines, st, en);
  }
}
