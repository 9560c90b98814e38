// The loop that turns the directives of a file into regions.
module ExtractorMap {
  import opened Machine
  import opened ExtractorRegions
  import opened ExtractorLines

  method CloseTop(stack0: seq<Frame>, pres0: seq<Region>, lc: nat)
    returns (stack: seq<Frame>, pres: seq<Region>, top: Frame)
    requires stack0 != [] && lc > 0
    ensures Pop(Scan(stack0, pres0), lc) == Some(Scan(stack, pres)) && top == stack0[|stack0| - 1]
  {
    top := stack0[|stack0| - 1];
    stack := stack0[..|stack0| - 1];
    pres := pres0 + [Region(top.tag, top.name, top.start, lc - 1)];
  }

  lemma ScanLineOf(lines: seq<string>, lc: nat, s: Scan)
    requires 1 <= lc <= |lines| && ScanTo(Views(lines), lc - 1) == Some(s)
    ensures ScanTo(Views(lines), lc) == ScanLine(s, Classify(lines[lc - 1]), lc)
  {
    ViewsAt(lines, lc - 1);
  }

  // The regions of a file, which are the branches that its lines make, innermost before outermost;
  // Failed where Python raises an exception, which is where a directive lacks its word or nothing is
  // open that it could end.
  method CreatePreprocessorMap(lines: seq<string>) returns (r: Result<seq<Region>>)
    ensures r == match ScanTo(Views(lines), |lines|) case None => Failed case Some(s) => Ok(s.pres)
    ensures r == Failed <==> exists k :: Raises(Views(lines), k)
    ensures r.Ok? ==> forall q :: q in r.value <==> IsBranch(Views(lines), q)
  {
    ghost var ds := Views(lines);
    var stack: seq<Frame> := [];
    var pres: seq<Region> := [];
    var lc := 1;
    while lc <= |lines|
      invariant 1 <= lc <= |lines| + 1
      invariant ScanTo(ds, lc - 1) == Some(Scan(stack, pres))
    {
      ScanLineOf(lines, lc, Scan(stack, pres));
      var ok;
      stack, pres, ok := MapLine(stack, pres, Classify(lines[lc - 1]), lc);
      if !ok {
        ScanStaysNone(ds, lc);
        FailsExactly(ds);
        return Failed;
      }
      lc := lc + 1;
    }
    FailsExactly(ds);
    forall q
      ensures q in pres <==> IsBranch(ds, q)
    {
      RegionsExactly(ds, q);
    }
    return Ok(pres);
  }

  // The body of the loop; not ok where Python raises an exception.
  method MapLine(stack0: seq<Frame>, pres0: seq<Region>, d: Directive, lc: nat)
    returns (stack: seq<Frame>, pres: seq<Region>, ok: bool)
    requires lc > 0
    ensures ScanLine(Scan(stack0, pres0), d, lc) == if ok then Some(Scan(stack, pres)) else None
  {
    stack, pres := stack0, pres0;
    if d.Malformed? || ((d.Elif? || d.Else? || d.Endif?) && stack == []) {
      return stack, pres, false;
    }
    match d {
      case Ifdef(name) => stack := stack + [Frame(IfdefTag, name, lc)];
      case If(name) => stack := stack + [Frame(IfTag, name, lc)];
      case Ifndef(name) => stack := stack + [Frame(IfndefTag, name, lc)];
      case Elif(name) =>
        var top;
        stack, pres, top := CloseTop(stack, pres, lc);
        stack := stack + [Frame(IfdefTag, name, lc)];
      case Else =>
        var top;
        stack, pres, top := CloseTop(stack, pres, lc);
        stack := stack + [Frame(IfndefTag, top.name, lc)];
      case Endif =>
        var top;
        stack, pres, top := CloseTop(stack, pres, lc);
      case Text =>
    }
    ok := true;
  }
}
