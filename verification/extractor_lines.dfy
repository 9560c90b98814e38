// The regions of a file, said of its lines alone: which lines begin one, where it ends, and which
// condition it keeps.
module ExtractorLines {
  import opened Machine
  import opened ExtractorRegions

  // ---------------------------------------------------------------------------
  // The word of a directive
  // ---------------------------------------------------------------------------

  // The word is the first in s: blanks before it, and a blank or nothing after it.
  ghost predicate FirstWord(s: string, word: string) {
    IsToken(word) && exists i: nat :: WordAt(s, word, i)
  }

  predicate WordAt(s: string, word: string, i: nat) {
    && i + |word| <= |s| && (forall k :: 0 <= k < i ==> IsSpace(s[k])) && s[i..i + |word|] == word
    && (i + |word| < |s| ==> IsSpace(s[i + |word|]))
  }

  lemma {:induction false} TakeTokenIs(s: string, word: string)
    requires IsToken(word) && WordAt(s, word, 0)
    ensures TakeToken(s) == word
    decreases |s|
  {
    assert s[0] == s[0..|word|][0] == word[0];
    if |word| == 1 {
      assert word == [word[0]];
      assert TakeToken(s[1..]) == "";
    } else {
      assert s[1..][0..|word| - 1] == s[0..|word|][1..] == word[1..];
      TakeTokenIs(s[1..], word[1..]);
      assert word == [word[0]] + word[1..];
    }
  }

  lemma {:induction false} TakesToken(s: string)
    requires s != "" && !IsSpace(s[0])
    ensures WordAt(s, TakeToken(s), 0)
    decreases |s|
  {
    if |s| > 1 && !IsSpace(s[1]) {
      TakesToken(s[1..]);
      assert s == [s[0]] + s[1..];
    } else {
      assert s[1..] == "" || IsSpace(s[1..][0]);
      assert TakeToken(s) == [s[0]] && s[0..1] == [s[0]];
    }
  }

  lemma {:induction false} FirstTokenExactly(s: string, word: string)
    ensures FirstToken(s) == Some(word) <==> FirstWord(s, word)
    decreases |s|
  {
    if s != "" && IsSpace(s[0]) {
      FirstTokenExactly(s[1..], word);
      LaterWord(s, word);
    } else {
      if FirstWord(s, word) {
        var i: nat :| WordAt(s, word, i);
        TakeTokenIs(s, word);
      }
      if FirstToken(s) == Some(word) {
        TakesToken(s);
      }
    }
  }

  lemma NotOnBlank(s: string, word: string, i: nat)
    requires IsToken(word) && WordAt(s, word, i)
    ensures i < |s| && !IsSpace(s[i])
  {
    assert s[i] == s[i..i + |word|][0];
  }

  lemma LaterWord(s: string, word: string)
    requires s != "" && IsSpace(s[0])
    ensures FirstWord(s, word) <==> FirstWord(s[1..], word)
  {
    if IsToken(word) {
      if i: nat :| WordAt(s, word, i) {
        NotOnBlank(s, word, i);
        assert s[1..][i - 1..i - 1 + |word|] == s[i..i + |word|];
        assert WordAt(s[1..], word, i - 1);
      }
      if i: nat :| WordAt(s[1..], word, i) {
        assert s[1..][i..i + |word|] == s[i + 1..i + 1 + |word|];
        assert WordAt(s, word, i + 1);
      }
    }
  }

  // The text of a line that is read as a directive of the extractor.
  ghost predicate Spells(line: string, d: Directive) {
    match d
    case Ifdef(name) => "#ifdef " <= line && FirstWord(line[7..], name)
    case If(name) => "#if " <= line && FirstWord(line[4..], name)
    case Ifndef(name) => "#ifndef " <= line && FirstWord(line[8..], name)
    case Elif(name) => "#elif " <= line && FirstWord(line[6..], name)
    case Else => "#else " <= line
    case Endif => "#endif " <= line
    case _ => false
  }

  lemma ClassifyExactly(line: string, d: Directive)
    requires !d.Text? && !d.Malformed?
    ensures Classify(line) == d <==> Spells(line, d)
  {
    Starts(line);
    if "#ifdef " <= line && d.Ifdef? {
      FirstTokenExactly(line[7..], d.name);
    } else if "#if " <= line && d.If? {
      FirstTokenExactly(line[4..], d.name);
    } else if "#ifndef " <= line && d.Ifndef? {
      FirstTokenExactly(line[8..], d.name);
    } else if "#elif " <= line && d.Elif? {
      FirstTokenExactly(line[6..], d.name);
    }
  }

  // A directive without its word is one that no word follows.
  lemma MalformedExactly(line: string)
    ensures Classify(line) == Malformed <==>
      || ("#ifdef " <= line && forall word :: !FirstWord(line[7..], word))
      || ("#if " <= line && forall word :: !FirstWord(line[4..], word))
      || ("#ifndef " <= line && forall word :: !FirstWord(line[8..], word))
      || ("#elif " <= line && forall word :: !FirstWord(line[6..], word))
  {
    Starts(line);
    if "#ifdef " <= line {
      NoWord(line[7..]);
    } else if "#if " <= line {
      NoWord(line[4..]);
    } else if "#ifndef " <= line {
      NoWord(line[8..]);
    } else if "#elif " <= line {
      NoWord(line[6..]);
    }
  }

  lemma NoWord(s: string)
    ensures FirstToken(s) == None <==> forall word :: !FirstWord(s, word)
  {
    if FirstToken(s).Some? {
      FirstTokenExactly(s, FirstToken(s).value);
    } else {
      forall word
        ensures !FirstWord(s, word)
      {
        FirstTokenExactly(s, word);
      }
    }
  }

  // ---------------------------------------------------------------------------
  // Which branches the lines make
  // ---------------------------------------------------------------------------

  // How many conditionals more are open after line k than after line a.
  function Level(ds: seq<Directive>, a: nat, k: nat): int
    requires a <= k <= |ds|
  {
    if k == a then 0
    else Level(ds, a, k - 1) + (if IsOpening(ds[k - 1]) then 1 else if ds[k - 1].Endif? then -1 else 0)
  }

  // Line m is an #elif, #else or #endif, and no conditional begun after line a is open there.
  predicate CouldEnd(ds: seq<Directive>, a: nat, m: nat) {
    a < m <= |ds| && ClosesFrame(ds[m - 1]) && Level(ds, a, m - 1) == 0
  }

  // Line m ends the branch begun at line a: it is the first such line.
  ghost predicate Ends(ds: seq<Directive>, a: nat, m: nat) {
    1 <= a && CouldEnd(ds, a, m) && forall k :: a < k < m ==> !CouldEnd(ds, a, k)
  }

  // Line a begins a branch, and this is the condition kept for it: that of an #if, #ifdef or #ifndef
  // is its own; an #elif counts as an #ifdef of its word, and an #else as an #ifndef of what the
  // branch before it names.
  ghost predicate Begins(ds: seq<Directive>, a: nat, tag: Tag, name: string)
    decreases a
  {
    1 <= a <= |ds| &&
    match ds[a - 1]
    case If(word) => tag == IfTag && name == word
    case Ifdef(word) => tag == IfdefTag && name == word
    case Ifndef(word) => tag == IfndefTag && name == word
    case Elif(word) => tag == IfdefTag && name == word
    case Else => tag == IfndefTag && exists b, before :: 1 <= b < a && Ends(ds, b, a) && Begins(ds, b, before, name)
    case _ => false
  }

  predicate BeginsAny(d: Directive) {
    IsOpening(d) || d.Elif? || d.Else?
  }

  // The region of a branch: from its first line to the one before the line that ends it.
  ghost predicate IsBranch(ds: seq<Directive>, r: Region) {
    Begins(ds, r.start, r.tag, r.name) && Ends(ds, r.start, r.end + 1)
  }

  // ---------------------------------------------------------------------------
  // What the scan keeps
  // ---------------------------------------------------------------------------

  // Frame i of n is that of a branch that has not ended after line k.
  ghost predicate OpenBranch(ds: seq<Directive>, k: nat, f: Frame, above: nat) {
    && 1 <= f.start <= k <= |ds| && Begins(ds, f.start, f.tag, f.name) && Level(ds, f.start, k) == above
    && forall m :: f.start < m <= k ==> !CouldEnd(ds, f.start, m)
  }

  ghost predicate AllOpen(ds: seq<Directive>, k: nat, stack: seq<Frame>) {
    forall i :: 0 <= i < |stack| ==> OpenBranch(ds, k, stack[i], |stack| - 1 - i)
  }

  ghost predicate AllBranches(ds: seq<Directive>, pres: seq<Region>) {
    forall i :: 0 <= i < |pres| ==> IsBranch(ds, pres[i])
  }

  ghost predicate Known(s: Scan, a: nat) {
    (exists i :: 0 <= i < |s.stack| && s.stack[i].start == a) || (exists i :: 0 <= i < |s.pres| && s.pres[i].start == a)
  }

  ghost predicate AllKnown(ds: seq<Directive>, k: nat, s: Scan)
    requires k <= |ds|
  {
    forall a :: 1 <= a <= k && BeginsAny(ds[a - 1]) ==> Known(s, a)
  }

  ghost predicate LinesInv(ds: seq<Directive>, k: nat, s: Scan) {
    k <= |ds| && AllOpen(ds, k, s.stack) && AllBranches(ds, s.pres) && AllKnown(ds, k, s)
  }

  // A frame below stays open over a line.
  lemma StaysOpen(ds: seq<Directive>, k: nat, f: Frame, above: nat)
    requires 0 < k <= |ds| && OpenBranch(ds, k - 1, f, above) && (ClosesFrame(ds[k - 1]) ==> above > 0)
    ensures OpenBranch(ds, k, f, above + if IsOpening(ds[k - 1]) then 1 else if ds[k - 1].Endif? then -1 else 0)
  {
  }

  // The innermost one ends at a line that closes.
  lemma TopEnds(ds: seq<Directive>, k: nat, f: Frame)
    requires 0 < k <= |ds| && OpenBranch(ds, k - 1, f, 0) && ClosesFrame(ds[k - 1])
    ensures IsBranch(ds, Region(f.tag, f.name, f.start, k - 1))
  {
  }

  lemma BranchOpens(ds: seq<Directive>, k: nat, f: Frame)
    requires 0 < k <= |ds| && f.start == k && Begins(ds, k, f.tag, f.name)
    ensures OpenBranch(ds, k, f, 0)
  {
  }

  lemma LineStack(ds: seq<Directive>, k: nat, s: Scan)
    requires 0 < k <= |ds| && LinesInv(ds, k - 1, s) && ScanLine(s, ds[k - 1], k).Some?
    ensures AllOpen(ds, k, ScanLine(s, ds[k - 1], k).value.stack)
  {
    var t, d, n := ScanLine(s, ds[k - 1], k).value, ds[k - 1], |s.stack|;
    forall i | 0 <= i < |t.stack|
      ensures OpenBranch(ds, k, t.stack[i], |t.stack| - 1 - i)
    {
      if t.stack[i].start == k {
        assert i == |t.stack| - 1;
        if d.Else? {
          TopEnds(ds, k, s.stack[n - 1]);
        }
        BranchOpens(ds, k, t.stack[i]);
      } else {
        assert t.stack[i] == s.stack[i];
        StaysOpen(ds, k, s.stack[i], n - 1 - i);
      }
    }
  }

  lemma LinePres(ds: seq<Directive>, k: nat, s: Scan)
    requires 0 < k <= |ds| && LinesInv(ds, k - 1, s) && ScanLine(s, ds[k - 1], k).Some?
    ensures AllBranches(ds, ScanLine(s, ds[k - 1], k).value.pres)
  {
    if ClosesFrame(ds[k - 1]) {
      TopEnds(ds, k, s.stack[|s.stack| - 1]);
    }
  }

  lemma LineKnown(ds: seq<Directive>, k: nat, s: Scan)
    requires 0 < k <= |ds| && AllKnown(ds, k - 1, s) && ScanLine(s, ds[k - 1], k).Some?
    ensures AllKnown(ds, k, ScanLine(s, ds[k - 1], k).value)
  {
    var t, d := ScanLine(s, ds[k - 1], k).value, ds[k - 1];
    forall a | 1 <= a <= k && BeginsAny(ds[a - 1])
      ensures Known(t, a)
    {
      if a == k {
        assert t.stack[|t.stack| - 1].start == k;
      } else {
        StaysKnown(s, d, k, a);
      }
    }
  }

  lemma StaysKnown(s: Scan, d: Directive, k: nat, a: nat)
    requires k > 0 && Known(s, a) && ScanLine(s, d, k).Some?
    ensures Known(ScanLine(s, d, k).value, a)
  {
    var t, n := ScanLine(s, d, k).value, |s.stack|;
    if i :| 0 <= i < |s.pres| && s.pres[i].start == a {
      assert t.pres[i].start == a;
    } else {
      var i :| 0 <= i < n && s.stack[i].start == a;
      if i == n - 1 && ClosesFrame(d) {
        assert t.pres[|s.pres|].start == a;
      } else {
        assert t.stack[i].start == a;
      }
    }
  }

  lemma {:induction false} ScanKeepsLines(ds: seq<Directive>, k: nat)
    requires k <= |ds| && ScanTo(ds, k).Some?
    ensures LinesInv(ds, k, ScanTo(ds, k).value)
  {
    if k > 0 {
      ScanKeepsLines(ds, k - 1);
      var s := ScanTo(ds, k - 1).value;
      LineStack(ds, k, s);
      LinePres(ds, k, s);
      LineKnown(ds, k, s);
    }
  }

  // ---------------------------------------------------------------------------
  // The regions are the branches
  // ---------------------------------------------------------------------------

  lemma EndsOnce(ds: seq<Directive>, a: nat, m: nat, n: nat)
    requires Ends(ds, a, m) && Ends(ds, a, n)
    ensures m == n
  {
  }

  lemma {:induction false} LevelAdds(ds: seq<Directive>, a: nat, b: nat, k: nat)
    requires a <= b <= k <= |ds|
    ensures Level(ds, a, k) == Level(ds, a, b) + Level(ds, b, k)
    decreases k - b
  {
    if b < k {
      LevelAdds(ds, a, b, k - 1);
    }
  }

  lemma {:induction false} NeverBelow(ds: seq<Directive>, a: nat, k: nat)
    requires a <= k <= |ds| && forall m :: a < m <= k ==> !CouldEnd(ds, a, m)
    ensures Level(ds, a, k) >= 0
    decreases k
  {
    if a < k {
      NeverBelow(ds, a, k - 1);
      assert !CouldEnd(ds, a, k);
    }
  }

  // A line ends at most one branch.
  lemma EndsOne(ds: seq<Directive>, a: nat, b: nat, m: nat)
    requires 1 <= a < b && Ends(ds, b, m) && BeginsAny(ds[b - 1])
    ensures !Ends(ds, a, m)
  {
    LevelAdds(ds, a, b, m - 1);
    assert CouldEnd(ds, a, b) <==> ClosesFrame(ds[b - 1]) && Level(ds, a, b - 1) == 0;
    if Ends(ds, a, m) {
      NeverBelow(ds, a, b - 1);
    }
  }

  lemma BeginsIsOpening(ds: seq<Directive>, a: nat, tag: Tag, name: string)
    requires Begins(ds, a, tag, name)
    ensures BeginsAny(ds[a - 1])
  {
  }

  lemma SameBranch(ds: seq<Directive>, a: nat, b: nat, m: nat)
    requires 1 <= a && 1 <= b && Ends(ds, a, m) && Ends(ds, b, m) && BeginsAny(ds[a - 1]) && BeginsAny(ds[b - 1])
    ensures a == b
  {
    if a < b {
      EndsOne(ds, a, b, m);
    } else if b < a {
      EndsOne(ds, b, a, m);
    }
  }

  // A branch has one condition.
  lemma {:induction false} BeginsOnce(ds: seq<Directive>, a: nat, tag: Tag, name: string, tag': Tag, name': string)
    requires Begins(ds, a, tag, name) && Begins(ds, a, tag', name')
    ensures tag == tag' && name == name'
    decreases a
  {
    if ds[a - 1].Else? {
      var b, before :| 1 <= b < a && Ends(ds, b, a) && Begins(ds, b, before, name);
      var b', before' :| 1 <= b' < a && Ends(ds, b', a) && Begins(ds, b', before', name');
      BeginsIsOpening(ds, b, before, name);
      BeginsIsOpening(ds, b', before', name');
      SameBranch(ds, b, b', a);
      BeginsOnce(ds, b, before, name, before', name');
    }
  }

  // For every file that the scan gets through, whatever its directives, the regions are exactly the
  // branches that its lines make, each with the condition kept for it.
  lemma RegionsExactly(ds: seq<Directive>, r: Region)
    requires ScanTo(ds, |ds|).Some?
    ensures r in ScanTo(ds, |ds|).value.pres <==> IsBranch(ds, r)
  {
    var s := ScanTo(ds, |ds|).value;
    ScanKeepsLines(ds, |ds|);
    if r in s.pres {
      var i :| 0 <= i < |s.pres| && s.pres[i] == r;
    }
    if IsBranch(ds, r) {
      BranchIsRegion(ds, s, r);
    }
  }

  lemma BranchIsRegion(ds: seq<Directive>, s: Scan, r: Region)
    requires LinesInv(ds, |ds|, s) && IsBranch(ds, r)
    ensures r in s.pres
  {
    BeginsIsOpening(ds, r.start, r.tag, r.name);
    forall i | 0 <= i < |s.stack|
      ensures s.stack[i].start != r.start
    {
      assert OpenBranch(ds, |ds|, s.stack[i], |s.stack| - 1 - i);
    }
    assert Known(s, r.start);
    var i :| 0 <= i < |s.pres| && s.pres[i].start == r.start;
    var q := s.pres[i];
    assert IsBranch(ds, q);
    EndsOnce(ds, r.start, q.end + 1, r.end + 1);
    BeginsOnce(ds, r.start, q.tag, q.name, r.tag, r.name);
    assert q == r;
  }

  // ---------------------------------------------------------------------------
  // When the scan fails
  // ---------------------------------------------------------------------------

  // Line k ends the scan with an exception: its directive lacks its word, or nothing is open that it
  // could end.
  predicate Raises(ds: seq<Directive>, k: nat) {
    1 <= k <= |ds| && (ds[k - 1].Malformed? || (ClosesFrame(ds[k - 1]) && Level(ds, 0, k - 1) <= 0))
  }

  lemma {:induction false} StackIsLevel(ds: seq<Directive>, k: nat)
    requires k <= |ds| && ScanTo(ds, k).Some?
    ensures |ScanTo(ds, k).value.stack| == Level(ds, 0, k)
  {
    if k > 0 {
      StackIsLevel(ds, k - 1);
    }
  }

  lemma {:induction false} FailsBy(ds: seq<Directive>, k: nat)
    requires k <= |ds|
    ensures ScanTo(ds, k).None? <==> exists j :: 1 <= j <= k && Raises(ds, j)
  {
    if k > 0 {
      FailsBy(ds, k - 1);
      if ScanTo(ds, k - 1).Some? {
        StackIsLevel(ds, k - 1);
        assert ScanTo(ds, k).None? <==> Raises(ds, k);
      }
    }
  }

  lemma FailsExactly(ds: seq<Directive>)
    ensures ScanTo(ds, |ds|).None? <==> exists k :: Raises(ds, k)
  {
    FailsBy(ds, |ds|);
  }
}
