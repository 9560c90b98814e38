// The extractor's view of a C file: directive lines push and pop a stack, every popped frame
// becomes a region of lines.
module ExtractorRegions {
  import opened Machine

  // ---------------------------------------------------------------------------
  // Lines
  // ---------------------------------------------------------------------------

  predicate IsSpace(c: char) {
    c == ' ' || c == '\t' || c == '\n' || c == '\r' || c == '\U{0B}' || c == '\U{0C}'
  }

  predicate IsToken(s: string) {
    s != "" && forall i :: 0 <= i < |s| ==> !IsSpace(s[i])
  }

  function SkipSpaces(s: string): (r: string)
    ensures r != "" ==> !IsSpace(r[0])
  {
    if s != "" && IsSpace(s[0]) then SkipSpaces(s[1..]) else s
  }

  function TakeToken(s: string): (r: string)
    ensures forall i :: 0 <= i < |r| ==> !IsSpace(r[i])
    ensures s != "" && !IsSpace(s[0]) ==> r != ""
  {
    if s == "" || IsSpace(s[0]) then "" else [s[0]] + TakeToken(s[1..])
  }

  // The first word of a string, as split() finds it.
  function FirstToken(s: string): (r: Option<string>)
    ensures r.Some? ==> IsToken(r.value)
  {
    var rest := SkipSpaces(s);
    if rest == "" then None else Some(TakeToken(rest))
  }

  datatype Directive =
    | Ifdef(name: string) | If(name: string) | Ifndef(name: string) | Elif(name: string)
    | Else | Endif | Text
    | Malformed // a directive without the word the extractor needs

  predicate IsNamed(d: Directive) {
    d.Ifdef? || d.If? || d.Ifndef? || d.Elif?
  }

  predicate IsOpening(d: Directive) {
    d.Ifdef? || d.If? || d.Ifndef?
  }

  predicate ClosesFrame(d: Directive) {
    d.Elif? || d.Else? || d.Endif?
  }

  // A directive is recognised at column 0 and followed by a space, and keeps its second word.
  function Classify(line: string): (d: Directive)
    ensures IsNamed(d) ==> IsToken(d.name)
  {
    if "#ifdef " <= line then
      match FirstToken(line[7..]) case Some(name) => Ifdef(name) case None => Malformed
    else if "#if " <= line then
      match FirstToken(line[4..]) case Some(name) => If(name) case None => Malformed
    else if "#ifndef " <= line then
      match FirstToken(line[8..]) case Some(name) => Ifndef(name) case None => Malformed
    else if "#elif " <= line then
      match FirstToken(line[6..]) case Some(name) => Elif(name) case None => Malformed
    else if "#else " <= line then Else
    else if "#endif " <= line then Endif
    else Text
  }

  // No line starts with two of the words.
  lemma Starts(line: string)
    ensures "#ifdef " <= line ==> !("#if " <= line) && !("#ifndef " <= line) && !("#elif " <= line)
    ensures "#if " <= line ==> !("#ifndef " <= line) && !("#elif " <= line)
    ensures "#ifndef " <= line ==> !("#elif " <= line)
    ensures "#else " <= line || "#endif " <= line ==>
      !("#ifdef " <= line) && !("#if " <= line) && !("#ifndef " <= line) && !("#elif " <= line)
    ensures "#endif " <= line ==> !("#else " <= line)
  {
    if "#ifdef " <= line {
      assert line[1] == "#ifdef "[1] && line[3] == "#ifdef "[3];
    }
    if "#if " <= line {
      assert line[1] == "#if "[1] && line[3] == "#if "[3];
    }
    if "#ifndef " <= line {
      assert line[1] == "#ifndef "[1] && line[3] == "#ifndef "[3];
    }
    if "#else " <= line {
      assert line[1] == "#else "[1] && line[3] == "#else "[3];
    }
    if "#endif " <= line {
      assert line[1] == "#endif "[1] && line[2] == "#endif "[2];
    }
  }

  // ---------------------------------------------------------------------------
  // Regions
  // ---------------------------------------------------------------------------

  datatype Tag = IfdefTag | IfTag | IfndefTag

  function TagText(t: Tag): string {
    match t
    case IfdefTag => "#ifdef "
    case IfTag => "#if "
    case IfndefTag => "#ifndef "
  }

  datatype Frame = Frame(tag: Tag, name: string, start: nat)

  // Lines start..end, counted from 1.
  datatype Region = Region(tag: Tag, name: string, start: nat, end: nat)

  datatype Scan = Scan(stack: seq<Frame>, pres: seq<Region>)

  function Push(s: Scan, f: Frame): Scan {
    s.(stack := s.stack + [f])
  }

  // Line lc closes the innermost frame. Popping an empty stack ends the extractor.
  function Pop(s: Scan, lc: nat): Option<Scan>
    requires lc > 0
  {
    if s.stack == [] then None
    else
      var n := |s.stack| - 1;
      var top := s.stack[n];
      Some(Scan(s.stack[..n], s.pres + [Region(top.tag, top.name, top.start, lc - 1)]))
  }

  function ScanLine(s: Scan, d: Directive, lc: nat): Option<Scan>
    requires lc > 0
  {
    match d
    case Ifdef(name) => Some(Push(s, Frame(IfdefTag, name, lc)))
    case If(name) => Some(Push(s, Frame(IfTag, name, lc)))
    case Ifndef(name) => Some(Push(s, Frame(IfndefTag, name, lc)))
    case Elif(name) =>
      (match Pop(s, lc) case None => None case Some(p) => Some(Push(p, Frame(IfdefTag, name, lc))))
    case Else =>
      (match Pop(s, lc)
       case None => None
       case Some(p) => Some(Push(p, Frame(IfndefTag, s.stack[|s.stack| - 1].name, lc))))
    case Endif => Pop(s, lc)
    case Text => Some(s)
    case Malformed => None
  }

  // The directives of a file, one for each line.
  function Views(lines: seq<string>): (ds: seq<Directive>)
    ensures |ds| == |lines|
  {
    if lines == [] then [] else Views(lines[..|lines| - 1]) + [Classify(lines[|lines| - 1])]
  }

  lemma {:induction false} ViewsAt(lines: seq<string>, i: nat)
    requires i < |lines|
    ensures Views(lines)[i] == Classify(lines[i])
  {
    if i < |lines| - 1 {
      ViewsAt(lines[..|lines| - 1], i);
    }
  }

  // The scan after k lines; None where Python raises an exception.
  function ScanTo(ds: seq<Directive>, k: nat): Option<Scan>
    requires k <= |ds|
  {
    if k == 0 then Some(Scan([], []))
    else match ScanTo(ds, k - 1)
      case None => None
      case Some(s) => ScanLine(s, ds[k - 1], k)
  }

  lemma {:induction false} ScanStaysNone(ds: seq<Directive>, k: nat)
    requires k <= |ds| && ScanTo(ds, k).None?
    ensures ScanTo(ds, |ds|).None?
    decreases |ds| - k
  {
    if k < |ds| {
      ScanStaysNone(ds, k + 1);
    }
  }
}
