// How a C preprocessor reads a line, and on which spellings the extractor reads the same. Comments
// and continued lines are not looked into.
module ExtractorCpp {
  import opened Machine
  import opened ExtractorRegions

  // ---------------------------------------------------------------------------
  // Lines of a text
  // ---------------------------------------------------------------------------

  // Every line with its line break; the last one may have none.
  function SplitLines(s: string): (r: seq<string>)
    ensures s != "" ==> r != []
  {
    if s == "" then []
    else if s[0] == '\n' then ["\n"] + SplitLines(s[1..])
    else Glue(s[0], SplitLines(s[1..]))
  }

  function Glue(c: char, lines: seq<string>): (r: seq<string>)
    ensures r != []
  {
    if lines == [] then [[c]] else [[c] + lines[0]] + lines[1..]
  }

  predicate IsLine(s: string) {
    s != "" && s[|s| - 1] == '\n' && forall i :: 0 <= i < |s| - 1 ==> s[i] != '\n'
  }

  lemma {:induction false} SplitOne(line: string, rest: string)
    requires IsLine(line)
    ensures SplitLines(line + rest) == [line] + SplitLines(rest)
  {
    var s := line + rest;
    assert s[0] == line[0];
    AppendTail(line, rest);
    if |line| == 1 {
      assert line == "\n" && line[1..] + rest == rest;
    } else {
      assert IsLine(line[1..]) by {
        assert forall i :: 0 <= i < |line[1..]| - 1 ==> line[1..][i] == line[i + 1];
      }
      SplitOne(line[1..], rest);
      assert [line[0]] + line[1..] == line;
    }
  }

  lemma {:induction false} SplitAppend(a: string, b: string)
    requires a != "" && a[|a| - 1] == '\n'
    ensures SplitLines(a + b) == SplitLines(a) + SplitLines(b)
    decreases |a|
  {
    AppendTail(a, b);
    if |a| == 1 {
      assert a == "\n" && a[1..] + b == b;
      assert SplitLines(a) == ["\n"];
    } else {
      SplitAppend(a[1..], b);
      if a[0] != '\n' {
        var x, y := SplitLines(a[1..]), SplitLines(b);
        assert (x + y)[0] == x[0];
        AppendTail(x, y);
        assert [[a[0]] + x[0]] + (x[1..] + y) == ([[a[0]] + x[0]] + x[1..]) + y;
      }
    }
  }

  // ---------------------------------------------------------------------------
  // Directives
  // ---------------------------------------------------------------------------

  predicate IsIdentChar(c: char) {
    'a' <= c <= 'z' || 'A' <= c <= 'Z' || '0' <= c <= '9' || c == '_'
  }

  predicate AllIdentChars(s: string) {
    forall i :: 0 <= i < |s| ==> IsIdentChar(s[i])
  }

  predicate IsIdentifier(s: string) {
    s != "" && AllIdentChars(s) && !('0' <= s[0] <= '9')
  }

  function TakeIdent(s: string): (r: string)
    ensures |r| <= |s| && AllIdentChars(r)
  {
    if s == "" || !IsIdentChar(s[0]) then "" else [s[0]] + TakeIdent(s[1..])
  }

  // The macro that a conditional names.
  function MacroName(rest: string): (r: Option<string>)
    ensures r.Some? ==> IsIdentifier(r.value)
  {
    var name := TakeIdent(SkipSpaces(rest));
    if name == "" || '0' <= name[0] <= '9' then None else Some(name)
  }

  // A directive with this word after its #, and this text after the word.
  function DirectiveOf(word: string, rest: string): (d: Directive)
    ensures d.Ifdef? || d.Ifndef? ==> IsIdentifier(d.name)
  {
    if word == "ifdef" then match MacroName(rest) case Some(name) => Ifdef(name) case None => Malformed
    else if word == "ifndef" then match MacroName(rest) case Some(name) => Ifndef(name) case None => Malformed
    else if word == "else" then Else
    else if word == "endif" then Endif
    else if word == "if" then match FirstToken(rest) case Some(name) => If(name) case None => Malformed
    else if word == "elif" then match FirstToken(rest) case Some(name) => Elif(name) case None => Malformed
    else Text
  }

  // Blanks may stand before the # and after it; the word ends where no identifier goes on.
  function CppClassify(line: string): (d: Directive)
    ensures d.Ifdef? || d.Ifndef? ==> IsIdentifier(d.name)
  {
    var s := SkipSpaces(line);
    if s == "" || s[0] != '#' then Text
    else
      var after := SkipSpaces(s[1..]);
      var word := TakeIdent(after);
      DirectiveOf(word, after[|word|..])
  }

  // The directives of a file as the preprocessor reads them.
  function Reading(lines: seq<string>): (ds: seq<Directive>)
    ensures |ds| == |lines| && forall i :: 0 <= i < |ds| ==> ds[i] == CppClassify(lines[i])
  {
    seq(|lines|, i requires 0 <= i < |lines| => CppClassify(lines[i]))
  }

  lemma ReadingAppend(a: seq<string>, b: seq<string>)
    ensures Reading(a + b) == Reading(a) + Reading(b)
  {
  }

  lemma ReadingTail(a: seq<string>)
    requires a != []
    ensures Reading(a)[0] == CppClassify(a[0]) && Reading(a)[1..] == Reading(a[1..])
  {
  }

  lemma {:induction false} TakeIdentStops(word: string, rest: string)
    requires AllIdentChars(word) && (rest == "" || !IsIdentChar(rest[0]))
    ensures TakeIdent(word + rest) == word
    decreases |word|
  {
    if word == "" {
      assert word + rest == rest;
    } else {
      AppendTail(word, rest);
      TakeIdentStops(word[1..], rest);
      assert word == [word[0]] + word[1..];
    }
  }

  lemma DirectiveAt(line: string, word: string, rest: string)
    requires line == "#" + word + rest && word != "" && AllIdentChars(word)
    requires rest == "" || !IsIdentChar(rest[0])
    ensures CppClassify(line) == DirectiveOf(word, rest)
  {
    assert line[0] == '#' && SkipSpaces(line) == line;
    var after := word + rest;
    assert line[1..] == after;
    assert after[0] == word[0] && IsIdentChar(after[0]);
    assert SkipSpaces(after) == after;
    TakeIdentStops(word, rest);
    assert after[|word|..] == rest;
  }

  // ---------------------------------------------------------------------------
  // Where the two readings agree
  // ---------------------------------------------------------------------------

  predicate Agrees(line: string) {
    CppClassify(line) == Classify(line)
  }

  // A directive stands at column 0, a single space ends its word, and only blanks end the name.
  predicate Spelled(line: string, d: Directive) {
    match d
    case Ifdef(name) => "#ifdef " <= line && FirstToken(line[7..]) == Some(name)
    case Ifndef(name) => "#ifndef " <= line && FirstToken(line[8..]) == Some(name)
    case Else => "#else " <= line
    case Endif => "#endif " <= line
    case _ => true
  }

  lemma StartsWith(line: string, word: string)
    requires word != "" && AllIdentChars(word) && "#" + word + " " <= line
    ensures CppClassify(line) == DirectiveOf(word, line[1 + |word|..])
  {
    var p := "#" + word + " ";
    var rest := line[1 + |word|..];
    assert line[..|p|] == p;
    assert line[1 + |word|] == p[1 + |word|] == ' ';
    assert line[..1 + |word|] == p[..1 + |word|] == "#" + word;
    assert line == "#" + word + rest;
    DirectiveAt(line, word, rest);
  }

  lemma NoFalseOpening(line: string)
    requires "#ifdef " <= line || "#if " <= line || "#ifndef " <= line
    ensures CppClassify(line) != Text
  {
    if "#ifdef " <= line {
      StartsWith(line, "ifdef");
    } else if "#if " <= line {
      StartsWith(line, "if");
    } else {
      StartsWith(line, "ifndef");
    }
  }

  // What the extractor takes for a directive is one.
  lemma NoFalseDirective(line: string)
    requires Classify(line) != Text
    ensures CppClassify(line) != Text
  {
    if "#ifdef " <= line || "#if " <= line || "#ifndef " <= line {
      NoFalseOpening(line);
    } else if "#elif " <= line {
      StartsWith(line, "elif");
    } else if "#else " <= line {
      StartsWith(line, "else");
    } else if "#endif " <= line {
      StartsWith(line, "endif");
    }
  }

  // On lines of text and on #ifdef, #ifndef, #else and #endif, the extractor reads what the
  // preprocessor reads if and only if a directive is spelled in the one way it knows.
  lemma AgreeExactly(line: string)
    requires var d := CppClassify(line); d.Text? || d.Ifdef? || d.Ifndef? || d.Else? || d.Endif?
    ensures Agrees(line) <==> Spelled(line, CppClassify(line))
  {
    if CppClassify(line).Text? && Classify(line) != Text {
      NoFalseDirective(line);
    }
    Starts(line);
  }
}
