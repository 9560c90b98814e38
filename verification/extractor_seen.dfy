// Which guard a range gets, in terms of the conditionals that the extractor sees, and what
// extraction loses when it does not see them all.
module ExtractorSeen {
  import opened Machine
  import opened ExtractorRegions
  import opened ExtractorLaminar
  import opened ExtractorCpp
  import opened ExtractorMeaning

  // ---------------------------------------------------------------------------
  // The extractor's stack follows the preprocessor's
  // ---------------------------------------------------------------------------

  // The tag the extractor keeps for a conditional: #else always becomes #ifndef.
  function KeptTag(c: Cond): Tag {
    if c.inElse then IfndefTag else c.opener
  }

  ghost predicate Aligned(stack: seq<Frame>, cs: seq<Cond>) {
    && |stack| == |cs|
    && forall i :: 0 <= i < |cs| ==>
         stack[i].name == cs[i].name && stack[i].tag == KeptTag(cs[i]) && cs[i].opener != IfTag
  }

  lemma AlignedLine(s: Scan, cs: seq<Cond>, d: Directive, lc: nat)
    requires lc > 0 && Aligned(s.stack, cs) && CondLine(cs, d).Some?
    ensures ScanLine(s, d, lc).Some? && Aligned(ScanLine(s, d, lc).value.stack, CondLine(cs, d).value)
  {
  }

  lemma {:induction false} ScanAligned(ds: seq<Directive>, k: nat)
    requires k <= |ds| && CondsAfter([], ds[..k]).Some?
    ensures ScanTo(ds, k).Some? && Aligned(ScanTo(ds, k).value.stack, CondsAfter([], ds[..k]).value)
  {
    if k > 0 {
      CondsOneMore(ds, 0, k);
      assert ds[0..k] == ds[..k] && ds[0..k - 1] == ds[..k - 1];
      ScanAligned(ds, k - 1);
      AlignedLine(ScanTo(ds, k - 1).value, CondsAfter([], ds[..k - 1]).value, ds[k - 1], k);
    }
  }

  lemma CondsOneMore(ds: seq<Directive>, a: nat, b: nat)
    requires a < b <= |ds| && CondsAfter([], ds[a..b]).Some?
    ensures CondsAfter([], ds[a..b - 1]).Some?
    ensures CondsAfter([], ds[a..b]) == CondLine(CondsAfter([], ds[a..b - 1]).value, ds[b - 1])
  {
    assert ds[a..b] == ds[a..b - 1] + [ds[b - 1]];
    CondsAppend([], ds[a..b - 1], [ds[b - 1]]);
    assert [ds[b - 1]][1..] == [];
  }

  // From s to t, n frames were added above those of s, and everything new starts after line a.
  ghost predicate Inside(s: Scan, t: Scan, n: nat, a: nat) {
    && |t.stack| == |s.stack| + n && t.stack[..|s.stack|] == s.stack
    && |t.pres| >= |s.pres| && t.pres[..|s.pres|] == s.pres
    && (forall i :: |s.stack| <= i < |t.stack| ==> t.stack[i].start > a)
    && (forall i :: |s.pres| <= i < |t.pres| ==> t.pres[i].start > a)
  }

  lemma InsideLine(s: Scan, t: Scan, cs: seq<Cond>, d: Directive, a: nat, lc: nat)
    requires Inside(s, t, |cs|, a) && CondLine(cs, d).Some? && lc > a
    ensures ScanLine(t, d, lc).Some? && Inside(s, ScanLine(t, d, lc).value, |CondLine(cs, d).value|, a)
  {
  }

  // Over lines that are well nested by themselves the frames below stay, and every frame and
  // region that is new starts inside.
  lemma {:induction false} ScanInside(ds: seq<Directive>, a: nat, b: nat, s: Scan) returns (t: Scan)
    requires a <= b <= |ds| && ScanTo(ds, a) == Some(s) && CondsAfter([], ds[a..b]).Some?
    ensures ScanTo(ds, b) == Some(t) && Inside(s, t, |CondsAfter([], ds[a..b]).value|, a)
    decreases b
  {
    if a < b {
      CondsOneMore(ds, a, b);
      var t0 := ScanInside(ds, a, b - 1, s);
      InsideLine(s, t0, CondsAfter([], ds[a..b - 1]).value, ds[b - 1], a, b);
      t := ScanLine(t0, ds[b - 1], b).value;
    } else {
      assert ds[a..b] == [];
      t := s;
    }
  }

  predicate HasStart(stack: seq<Frame>, start: nat) {
    exists i :: 0 <= i < |stack| && stack[i].start == start
  }

  // What was known after k lines stays, and what is new comes from a frame open then, or starts
  // later.
  ghost predicate Grows(s: Scan, t: Scan, k: nat) {
    && |t.pres| >= |s.pres| && t.pres[..|s.pres|] == s.pres
    && (forall i :: 0 <= i < |t.stack| ==> HasStart(s.stack, t.stack[i].start) || t.stack[i].start > k)
    && (forall i :: |s.pres| <= i < |t.pres| ==> HasStart(s.stack, t.pres[i].start) || t.pres[i].start > k)
  }

  lemma GrowsLine(s: Scan, t: Scan, d: Directive, k: nat, lc: nat)
    requires Grows(s, t, k) && lc > k && ScanLine(t, d, lc).Some?
    ensures Grows(s, ScanLine(t, d, lc).value, k)
  {
  }

  lemma {:induction false} ScanGrows(ds: seq<Directive>, k: nat, n: nat)
    requires k <= n <= |ds| && ScanTo(ds, n).Some?
    ensures ScanTo(ds, k).Some?
    ensures Grows(ScanTo(ds, k).value, ScanTo(ds, n).value, k)
    decreases n
  {
    if k < n {
      ScanGrows(ds, k, n - 1);
      GrowsLine(ScanTo(ds, k).value, ScanTo(ds, n - 1).value, ds[n - 1], k, n);
    }
  }

  // In a file that ends with no frame open, every frame open after k lines becomes a region
  // that reaches at least line k.
  lemma {:induction false} FrameCloses(ds: seq<Directive>, k: nat, i: nat, f: Frame)
    requires k <= |ds| && ScanTo(ds, |ds|).Some? && ScanTo(ds, |ds|).value.stack == []
    requires ScanTo(ds, k).Some? && i < |ScanTo(ds, k).value.stack| && ScanTo(ds, k).value.stack[i] == f
    ensures exists r :: r in ScanTo(ds, |ds|).value.pres && ClosesAt(r, f, k)
    decreases |ds| - k
  {
    if ScanTo(ds, k + 1).None? {
      ScanStaysNone(ds, k + 1);
    }
    LineKeepsOrCloses(ScanTo(ds, k).value, ds[k], k + 1, i, f);
    var t := ScanTo(ds, k + 1).value;
    if i < |t.stack| && t.stack[i] == f {
      FrameCloses(ds, k + 1, i, f);
    } else {
      var r := Region(f.tag, f.name, f.start, k);
      RegionStays(ds, k + 1, r);
      assert ClosesAt(r, f, k);
    }
  }

  lemma RegionStays(ds: seq<Directive>, k: nat, r: Region)
    requires k <= |ds| && ScanTo(ds, |ds|).Some? && ScanTo(ds, k).Some? && r in ScanTo(ds, k).value.pres
    ensures r in ScanTo(ds, |ds|).value.pres
  {
    ScanGrows(ds, k, |ds|);
    PrefixHas(ScanTo(ds, k).value.pres, ScanTo(ds, |ds|).value.pres, r);
  }

  lemma LineKeepsOrCloses(s: Scan, d: Directive, lc: nat, i: nat, f: Frame)
    requires lc > 0 && ScanLine(s, d, lc).Some? && i < |s.stack| && s.stack[i] == f
    ensures var t := ScanLine(s, d, lc).value;
      (i < |t.stack| && t.stack[i] == f) || Region(f.tag, f.name, f.start, lc - 1) in t.pres
  {
    if i == |s.stack| - 1 && (d.Elif? || d.Else? || d.Endif?) {
      var r := Region(f.tag, f.name, f.start, lc - 1);
      assert ScanLine(s, d, lc).value.pres == s.pres + [r];
    }
  }

  lemma PrefixHas(pres: seq<Region>, longer: seq<Region>, r: Region)
    requires |pres| <= |longer| && longer[..|pres|] == pres && r in pres
    ensures r in longer
  {
  }

  // ---------------------------------------------------------------------------
  // The guard of a range
  // ---------------------------------------------------------------------------

  // Both the whole and the lines st..en are well nested.
  ghost predicate Nested(ds: seq<Directive>, st: nat, en: nat) {
    && 1 <= st <= en <= |ds|
    && CondsAfter([], ds) == Some([]) && CondsAfter([], ds[st - 1..en]) == Some([])
  }


  lemma SplitFile(ds: seq<Directive>, k: nat)
    requires k <= |ds| && CondsAfter([], ds).Some?
    ensures CondsAfter([], ds[..k]).Some?
  {
    assert ds == ds[..k] + ds[k..];
    CondsAppend([], ds[..k], ds[k..]);
  }

  // Before the range the stack follows the preprocessor's conditionals.
  lemma ScanBefore(ds: seq<Directive>, st: nat, en: nat) returns (before: Scan)
    requires Nested(ds, st, en)
    ensures ScanTo(ds, st - 1) == Some(before) && ScanInv(before, st - 1) && Aligned(before.stack, OpenAt(ds, st))
  {
    SplitFile(ds, st - 1);
    ScanAligned(ds, st - 1);
    ScanKeepsInv(ds, st - 1);
    before := ScanTo(ds, st - 1).value;
  }

  // After it the stack is the same.
  lemma ScanAfter(ds: seq<Directive>, st: nat, en: nat, before: Scan) returns (after: Scan)
    requires Nested(ds, st, en) && ScanTo(ds, st - 1) == Some(before)
    ensures ScanTo(ds, en) == Some(after) && ScanInv(after, en)
    ensures Inside(before, after, 0, st - 1) && after.stack == before.stack
  {
    after := ScanInside(ds, st - 1, en, before);
    ScanKeepsInv(ds, en);
    assert after.stack == after.stack[..|before.stack|];
  }

  // At the end of the file it is empty.
  lemma {:induction false} ScanEnd(ds: seq<Directive>) returns (final: Scan)
    requires CondsAfter([], ds) == Some([])
    ensures ScanTo(ds, |ds|) == Some(final) && final.stack == [] && Laminar(final.pres)
  {
    assert ds[..|ds|] == ds;
    ScanAligned(ds, |ds|);
    RegionsAreLaminar(ds);
    final := ScanTo(ds, |ds|).value;
  }

  lemma GrowsTo(ds: seq<Directive>, k: nat, s: Scan, final: Scan)
    requires k <= |ds| && ScanTo(ds, k) == Some(s) && ScanTo(ds, |ds|) == Some(final)
    ensures Grows(s, final, k)
  {
    ScanGrows(ds, k, |ds|);
  }

  lemma FromFrame(before: Scan, after: Scan, final: Scan, st: nat, en: nat, q: Region)
    requires 1 <= st <= en && ScanInv(before, st - 1) && ScanInv(after, en)
    requires Inside(before, after, 0, st - 1) && after.stack == before.stack
    requires Grows(before, final, st - 1) && Grows(after, final, en)
    requires q in final.pres && Contains(q, st, en)
    ensures HasStart(before.stack, q.start)
  {
    var i :| 0 <= i < |final.pres| && final.pres[i] == q;
  }

  // Region r comes from frame f and reaches at least line k.
  predicate ClosesAt(r: Region, f: Frame, k: nat) {
    r.tag == f.tag && r.name == f.name && r.start == f.start && k <= r.end
  }

  ghost predicate Increasing(stack: seq<Frame>) {
    forall i, j :: 0 <= i < j < |stack| ==> stack[i].start < stack[j].start
  }

  // r is the innermost conditional, with the tag that the extractor keeps.
  predicate IsInnermost(cs: seq<Cond>, r: Option<Region>) {
    if cs == [] then r == None
    else r.Some? && r.value.tag == KeptTag(cs[|cs| - 1]) && r.value.name == cs[|cs| - 1].name && r.value.tag != IfTag
  }

  lemma TopRegionIsFirst(stack: seq<Frame>, pres: seq<Region>, cs: seq<Cond>, st: nat, en: nat)
    requires Aligned(stack, cs) && Increasing(stack) && Laminar(pres) && 1 <= st <= en
    requires forall q :: q in pres && Contains(q, st, en) ==> HasStart(stack, q.start)
    requires stack != [] ==> stack[|stack| - 1].start <= st
    requires TopCloses(pres, stack, en)
    ensures IsInnermost(cs, FirstContaining(pres, st, en))
  {
    if stack != [] {
      var top := stack[|stack| - 1];
      var r :| r in pres && ClosesAt(r, top, en);
      assert Contains(r, st, en);
      FirstIsInnermost(pres, st, en);
      var first := FirstContaining(pres, st, en).value;
      var i :| 0 <= i < |stack| && stack[i].start == first.start;
      assert stack[i].start <= top.start;
      assert r == first;
    }
  }

  // What the scans before and after the range and at the end of the file have to do with each
  // other.
  ghost predicate Bracket(before: Scan, after: Scan, final: Scan, cs: seq<Cond>, st: nat, en: nat) {
    && 1 <= st <= en && Aligned(before.stack, cs) && ScanInv(before, st - 1) && ScanInv(after, en)
    && Inside(before, after, 0, st - 1) && after.stack == before.stack
    && Ends(before, after, final, st, en)
  }

  ghost predicate Ends(before: Scan, after: Scan, final: Scan, st: nat, en: nat) {
    && 1 <= st && Grows(before, final, st - 1) && Grows(after, final, en) && Laminar(final.pres)
    && TopCloses(final.pres, after.stack, en)
  }

  // The innermost frame becomes a region that reaches at least line k.
  ghost predicate TopCloses(pres: seq<Region>, stack: seq<Frame>, k: nat) {
    stack != [] ==> exists r :: r in pres && ClosesAt(r, stack[|stack| - 1], k)
  }

  lemma TopClosesAt(ds: seq<Directive>, k: nat, s: Scan, final: Scan)
    requires k <= |ds| && ScanTo(ds, |ds|) == Some(final) && final.stack == [] && ScanTo(ds, k) == Some(s)
    ensures TopCloses(final.pres, s.stack, k)
  {
    if s.stack != [] {
      FrameCloses(ds, k, |s.stack| - 1, s.stack[|s.stack| - 1]);
    }
  }

  lemma BracketOfFile(ds: seq<Directive>, st: nat, en: nat) returns (before: Scan, after: Scan, final: Scan)
    requires Nested(ds, st, en)
    ensures ScanTo(ds, |ds|) == Some(final) && Bracket(before, after, final, OpenAt(ds, st), st, en)
  {
    before := ScanBefore(ds, st, en);
    after := ScanAfter(ds, st, en, before);
    final := ScanEnd(ds);
    ScanRest(ds, st, en, before, after, final);
  }

  lemma ScanRest(ds: seq<Directive>, st: nat, en: nat, before: Scan, after: Scan, final: Scan)
    requires 1 <= st <= en <= |ds| && ScanTo(ds, st - 1) == Some(before) && ScanTo(ds, en) == Some(after)
    requires ScanTo(ds, |ds|) == Some(final) && final.stack == [] && Laminar(final.pres)
    ensures Ends(before, after, final, st, en)
  {
    GrowsTo(ds, st - 1, before, final);
    GrowsTo(ds, en, after, final);
    TopClosesAt(ds, en, after, final);
  }

  lemma InnermostOf(before: Scan, after: Scan, final: Scan, cs: seq<Cond>, st: nat, en: nat)
    requires Bracket(before, after, final, cs, st, en)
    ensures IsInnermost(cs, FirstContaining(final.pres, st, en))
  {
    forall q | q in final.pres && Contains(q, st, en)
      ensures HasStart(before.stack, q.start)
    {
      FromFrame(before, after, final, st, en, q);
    }
    InvIncreases(before, st - 1);
    TopRegionIsFirst(before.stack, final.pres, cs, st, en);
  }

  // The conditionals around the range that the extractor sees.
  function Seen(lines: seq<string>, st: nat): seq<Cond>
    requires 1 <= st <= |lines|
  {
    OpenAt(Views(lines), st)
  }

  // The first region that contains the range is that of the innermost conditional seen around it,
  // with the tag that the extractor keeps.
  lemma GuardOfRange(lines: seq<string>, st: nat, en: nat)
    requires Nested(Views(lines), st, en)
    ensures IsInnermost(Seen(lines, st), FirstContaining(Regions(lines), st, en))
  {
    var before, after, final := BracketOfFile(Views(lines), st, en);
    InnermostOf(before, after, final, Seen(lines, st), st, en);
  }

  lemma InvIncreases(s: Scan, k: nat)
    requires ScanInv(s, k)
    ensures Increasing(s.stack) && (s.stack != [] ==> s.stack[|s.stack| - 1].start <= k)
  {
  }

  // ---------------------------------------------------------------------------
  // Files in which every directive is seen
  // ---------------------------------------------------------------------------

  // The extractor reads every line as the preprocessor does.
  ghost predicate SameViews(lines: seq<string>) {
    Views(lines) == Reading(lines)
  }

  // It does so exactly when every directive is spelled in the one way it knows.
  lemma SameViewsExactly(lines: seq<string>)
    requires forall i :: 0 <= i < |lines| ==> InFragment(CppClassify(lines[i]))
    ensures SameViews(lines) <==> forall i :: 0 <= i < |lines| ==> Spelled(lines[i], CppClassify(lines[i]))
  {
    forall i | 0 <= i < |lines|
      ensures Views(lines)[i] == Reading(lines)[i] <==> Spelled(lines[i], CppClassify(lines[i]))
    {
      ViewsAt(lines, i);
      AgreeExactly(lines[i]);
    }
    if forall i :: 0 <= i < |lines| ==> Spelled(lines[i], CppClassify(lines[i])) {
      assert forall i :: 0 <= i < |lines| ==> Views(lines)[i] == Reading(lines)[i];
    }
  }

  // The file is well nested, and so is the range by itself. Both readings of the file are the same.
  ghost predicate Fits(lines: seq<string>, st: nat, en: nat) {
    && 1 <= st <= en <= |lines| && SameViews(lines)
    && CondsAfter([], Reading(lines)) == Some([])
    && CondsAfter([], Reading(Range(lines, st, en))) == Some([])
  }

  lemma FitsNested(lines: seq<string>, st: nat, en: nat)
    requires Fits(lines, st, en)
    ensures Nested(Views(lines), st, en) && Readable(lines, st, en) && Seen(lines, st) == Around(lines, st)
  {
    assert Reading(lines)[st - 1..en] == Reading(Range(lines, st, en));
    SplitFile(Reading(lines), st - 1);
  }

  ghost predicate NamesMacros(cs: seq<Cond>) {
    forall i :: 0 <= i < |cs| ==> IsIdentifier(cs[i].name) && cs[i].opener != IfTag
  }

  lemma {:induction false} OpenNamesMacros(ds: seq<Directive>, k: nat)
    requires forall i :: 0 <= i < |ds| && (ds[i].Ifdef? || ds[i].Ifndef?) ==> IsIdentifier(ds[i].name)
    requires k <= |ds| && CondsAfter([], ds[..k]).Some?
    ensures NamesMacros(CondsAfter([], ds[..k]).value)
  {
    if k > 0 {
      CondsOneMore(ds, 0, k);
      assert ds[0..k] == ds[..k] && ds[0..k - 1] == ds[..k - 1];
      OpenNamesMacros(ds, k - 1);
      LineNamesMacros(CondsAfter([], ds[..k - 1]).value, ds[k - 1]);
    }
  }

  lemma LineNamesMacros(cs: seq<Cond>, d: Directive)
    requires NamesMacros(cs) && CondLine(cs, d).Some? && (d.Ifdef? || d.Ifndef? ==> IsIdentifier(d.name))
    ensures NamesMacros(CondLine(cs, d).value)
  {
  }

  // The condition that the extractor keeps for the innermost conditional.
  function KeptCond(cs: seq<Cond>): Option<Cond> {
    if cs == [] then None else Some(Cond(KeptTag(cs[|cs| - 1]), cs[|cs| - 1].name, false))
  }

  lemma GuardWhenSeen(lines: seq<string>, st: nat, en: nat)
    requires Fits(lines, st, en)
    ensures GuardOf(lines, st, en) == KeptCond(Around(lines, st)) && NamesMacros(Around(lines, st))
  {
    FitsNested(lines, st, en);
    GuardOfRange(lines, st, en);
    var cs := Around(lines, st);
    OpenNamesMacros(Reading(lines), st - 1);
    if cs != [] {
      var c := cs[|cs| - 1];
      MacroReadsBack(c.name);
      GuardsReads(KeptTag(c), c.name);
    }
  }

  // The range lies in the #else of an #ifndef, for which the extractor keeps #ifndef.
  predicate InElseOfIfndef(cs: seq<Cond>) {
    cs != [] && cs[|cs| - 1].opener == IfndefTag && cs[|cs| - 1].inElse
  }

  // Extraction preserves the meaning of a range that some set of macros compiles exactly when it
  // does not lie in the #else of an #ifndef.
  lemma ExtractionPreservesMeaning(comment: seq<string>, lines: seq<string>, st: nat, en: nat)
    requires Fits(lines, st, en) && IsText(comment)
    ensures var cs := Around(lines, st);
      Preserved(comment, lines, st, en) <==> Contradicts(cs) || !InElseOfIfndef(cs)
  {
    FitsNested(lines, st, en);
    GuardWhenSeen(lines, st, en);
    PreservedExactly(comment, lines, st, en);
    KeptEntailed(Around(lines, st));
  }

  lemma KeptEntailed(cs: seq<Cond>)
    requires NamesMacros(cs)
    ensures Entails(cs, KeptCond(cs)) <==> Contradicts(cs) || !InElseOfIfndef(cs)
  {
    if cs != [] {
      var last, guard := cs[|cs| - 1], KeptCond(cs).value;
      assert SameCond(last, guard) <==> !InElseOfIfndef(cs);
      if InElseOfIfndef(cs) && !Contradicts(cs) {
        NotAsked(cs, guard);
      }
    }
  }

  lemma NotAsked(cs: seq<Cond>, guard: Cond)
    requires !Contradicts(cs) && cs != []
    requires guard.name == cs[|cs| - 1].name && WantsDefined(guard) != WantsDefined(cs[|cs| - 1])
    ensures !Asks(cs, guard)
  {
    var last := cs[|cs| - 1];
    assert forall i :: 0 <= i < |cs| - 1 && cs[i].name == last.name ==> WantsDefined(cs[i]) == WantsDefined(last);
  }

  // The block is also nothing when the range is, exactly when all conditionals around the range ask
  // the same and it does not lie in the #else of an #ifndef: so under one #ifdef.
  lemma EquivalentWhenSeen(comment: seq<string>, lines: seq<string>, st: nat, en: nat)
    requires Fits(lines, st, en) && IsText(comment)
    ensures var cs := Around(lines, st);
      Equivalent(comment, lines, st, en) <==>
        !InElseOfIfndef(cs) && forall i :: 0 <= i < |cs| ==> SameCond(cs[i], cs[|cs| - 1])
  {
    FitsNested(lines, st, en);
    GuardWhenSeen(lines, st, en);
    EquivalentExactly(comment, lines, st, en);
    KeptQuestion(Around(lines, st));
  }

  lemma KeptQuestion(cs: seq<Cond>)
    requires NamesMacros(cs)
    ensures SameQuestion(cs, KeptCond(cs)) <==>
      !InElseOfIfndef(cs) && forall i :: 0 <= i < |cs| ==> SameCond(cs[i], cs[|cs| - 1])
  {
    if cs != [] {
      assert SameCond(cs[|cs| - 1], KeptCond(cs).value) <==> !InElseOfIfndef(cs);
    }
  }

  // ---------------------------------------------------------------------------
  // Files with an #else that is not seen
  // ---------------------------------------------------------------------------

  // The range lies in an #else, and the extractor takes it to lie before that.
  predicate UnseenElse(cs: seq<Cond>, seen: seq<Cond>) {
    && cs != [] && seen != [] && cs[|cs| - 1].inElse && !seen[|seen| - 1].inElse
    && GuardCond(seen[|seen| - 1].opener, seen[|seen| - 1].name) == Some(cs[|cs| - 1].(inElse := false))
  }

  // Then text that is compiled is lost, whatever else the file holds.
  lemma {:induction false} UnseenElseLosesText(lines: seq<string>, st: nat, en: nat, comment: seq<string>)
    requires Readable(lines, st, en) && IsText(comment) && Nested(Views(lines), st, en)
    requires UnseenElse(Around(lines, st), Seen(lines, st)) && !Contradicts(Around(lines, st))
    ensures !Preserved(comment, lines, st, en)
  {
    GuardOfRange(lines, st, en);
    UnseenElseGuard(Around(lines, st), Seen(lines, st), FirstContaining(Regions(lines), st, en));
    PreservedExactly(comment, lines, st, en);
  }

  lemma UnseenElseGuard(cs: seq<Cond>, seen: seq<Cond>, r: Option<Region>)
    requires UnseenElse(cs, seen) && !Contradicts(cs) && IsInnermost(seen, r)
    ensures r.Some? && !Entails(cs, GuardCond(r.value.tag, r.value.name))
  {
    NotAsked(cs, cs[|cs| - 1].(inElse := false));
  }

  // #ifdef name, a line, #else, a line, #endif, where the extractor does not see the #else.
  predicate HidesElse(lines: seq<string>, name: string) {
    && Reading(lines) == [Ifdef(name), Text, Else, Text, Endif]
    && Views(lines) == [Ifdef(name), Text, Text, Text, Endif]
  }

  lemma CondsCons(cs: seq<Cond>, d: Directive, rest: seq<Directive>, after: seq<Cond>)
    requires CondLine(cs, d) == Some(after)
    ensures CondsAfter(cs, [d] + rest) == CondsAfter(after, rest)
  {
    assert ([d] + rest)[1..] == rest;
  }

  lemma OneCondLines(name: string)
    ensures var c := Cond(IfdefTag, name, false);
      && CondLine([], Ifdef(name)) == Some([c])
      && CondLine([c], Else) == Some([c.(inElse := true)])
      && CondLine([c.(inElse := true)], Endif) == Some([])
  {
    var c := Cond(IfdefTag, name, false);
    assert [] + [c] == [c] && [c][..0] + [c.(inElse := true)] == [c.(inElse := true)];
  }

  lemma ToElse(name: string, rest: seq<Directive>)
    ensures CondsAfter([], [Ifdef(name), Text, Else] + rest) == CondsAfter([Cond(IfdefTag, name, true)], rest)
  {
    var c := Cond(IfdefTag, name, false);
    OneCondLines(name);
    assert [Ifdef(name), Text, Else] + rest == [Ifdef(name)] + ([Text] + ([Else] + rest));
    CondsCons([], Ifdef(name), [Text] + ([Else] + rest), [c]);
    CondsCons([c], Text, [Else] + rest, [c]);
    CondsCons([c], Else, rest, [c.(inElse := true)]);
  }

  lemma PastText(name: string, rest: seq<Directive>)
    ensures CondsAfter([], [Ifdef(name), Text, Text] + rest) == CondsAfter([Cond(IfdefTag, name, false)], rest)
  {
    var c := Cond(IfdefTag, name, false);
    OneCondLines(name);
    assert [Ifdef(name), Text, Text] + rest == [Ifdef(name)] + ([Text] + ([Text] + rest));
    CondsCons([], Ifdef(name), [Text] + ([Text] + rest), [c]);
    CondsCons([c], Text, [Text] + rest, [c]);
    CondsCons([c], Text, rest, [c]);
  }

  lemma ToEnd(c: Cond)
    requires CondLine([c], Endif) == Some([])
    ensures CondsAfter([c], [Text, Endif]) == Some([]) && CondsAfter([], [Text]) == Some([])
  {
    CondsCons([c], Text, [Endif], [c]);
    CondsCons([c], Endif, [], []);
    CondsCons([], Text, [], []);
    assert [Text] + [Endif] == [Text, Endif] && [Endif] + [] == [Endif] && [Text] + [] == [Text];
  }

  lemma HidesElseReading(lines: seq<string>, name: string)
    requires HidesElse(lines, name)
    ensures Readable(lines, 4, 4) && Around(lines, 4) == [Cond(IfdefTag, name, true)]
  {
    ToElse(name, []);
    var ds := Reading(lines);
    assert ds[..3] == [Ifdef(name), Text, Else] + [];
    assert Reading(Range(lines, 4, 4)) == [Text];
    ToEnd(Cond(IfdefTag, name, false));
  }

  lemma HidesElseViews(lines: seq<string>, name: string)
    requires HidesElse(lines, name)
    ensures Nested(Views(lines), 4, 4) && Seen(lines, 4) == [Cond(IfdefTag, name, false)]
  {
    PastText(name, []);
    PastText(name, [Text, Endif]);
    OneCondLines(name);
    ToEnd(Cond(IfdefTag, name, false));
    var ds := Views(lines);
    assert ds[..3] == [Ifdef(name), Text, Text] + [] && ds[3..4] == [Text];
    assert ds == [Ifdef(name), Text, Text] + [Text, Endif];
  }

  // How the preprocessor and the extractor read a line.
  predicate ReadsAs(line: string, d: Directive, seen: Directive) {
    CppClassify(line) == d && Classify(line) == seen
  }

  lemma IfdefReads(line: string, name: string)
    requires line == "#ifdef " + name + " \n" && IsIdentifier(name)
    ensures ReadsAs(line, Ifdef(name), Ifdef(name))
  {
    var rest := name + " \n";
    assert line[..7] == "#ifdef " && line[7..] == rest;
    StartsWith(line, "ifdef");
    assert line[6..] == " " + rest;
    WordReads(name, rest);
  }

  lemma WordReads(name: string, rest: string)
    requires IsIdentifier(name) && rest == name + " \n"
    ensures MacroName(" " + rest) == Some(name) && FirstToken(rest) == Some(name)
  {
    assert rest[0] == name[0] && IsIdentChar(rest[0]);
    assert SkipSpaces(rest) == rest && (" " + rest)[1..] == rest;
    TakeIdentStops(name, " \n");
    TakeTokenStops(name, " \n");
  }

  lemma {:induction false} TakeTokenStops(word: string, rest: string)
    requires AllIdentChars(word) && rest != "" && IsSpace(rest[0])
    ensures TakeToken(word + rest) == word
    decreases |word|
  {
    if word == "" {
      assert word + rest == rest;
    } else {
      AppendTail(word, rest);
      TakeTokenStops(word[1..], rest);
      assert IsIdentChar(word[0]) && word == [word[0]] + word[1..];
    }
  }

  // What ends the word of a directive, other than a space.
  predicate EndsWord(eol: string) {
    eol != "" && eol[0] != ' ' && !IsIdentChar(eol[0])
  }

  // An #else that ends its line is text to the extractor.
  lemma ElseReads(line: string, eol: string)
    requires line == "#else" + eol && EndsWord(eol)
    ensures ReadsAs(line, Else, Text)
  {
    assert line == "#" + "else" + eol;
    DirectiveAt(line, "else", eol);
    assert line[5] == eol[0] && line[1] == 'e' && line[3] == 's';
  }

  lemma EndifReads(line: string, rest: string)
    requires line == "#endif " + rest
    ensures ReadsAs(line, Endif, Endif)
  {
    assert line[..7] == "#endif ";
    StartsWith(line, "endif");
    Starts(line);
  }

  lemma TextReads(line: string)
    requires CppClassify(line) == Text
    ensures ReadsAs(line, Text, Text)
  {
    if Classify(line) != Text {
      NoFalseDirective(line);
    }
  }

  // An #ifdef with an #else that ends its line.
  function ElseFile(name: string, x: string, y: string, eol: string): seq<string> {
    ["#ifdef " + name + " \n", x, "#else" + eol, y, "#endif " + eol]
  }

  // In every such file y is compiled without the macro, and its block with it.
  lemma ElseFileLosesText(name: string, x: string, y: string, eol: string, comment: seq<string>)
    requires IsIdentifier(name) && CppClassify(x) == Text && CppClassify(y) == Text && IsText(comment)
    requires EndsWord(eol)
    ensures !Preserved(comment, ElseFile(name, x, y, eol), 4, 4)
  {
    var lines := ElseFile(name, x, y, eol);
    IfdefReads(lines[0], name);
    TextReads(x);
    ElseReads(lines[2], eol);
    TextReads(y);
    EndifReads(lines[4], eol);
    FileHidesElse(lines, name);
    FileLosesText(comment, lines, name);
  }

  // For one, the line b of this file.
  lemma HiddenElseLosesText(lines: seq<string>, comment: seq<string>)
    requires lines == ["#ifdef A \n", "a\n", "#else\n", "b\n", "#endif \n"] && IsText(comment)
    ensures !Preserved(comment, lines, 4, 4)
  {
    var name, x, y, eol := HiddenFile(lines);
    CommentLineIsText(x);
    CommentLineIsText(y);
    ElseFileLosesText(name, x, y, eol, comment);
  }

  lemma HiddenFile(lines: seq<string>) returns (name: string, x: string, y: string, eol: string)
    requires lines == ["#ifdef A \n", "a\n", "#else\n", "b\n", "#endif \n"]
    ensures lines == ElseFile(name, x, y, eol) && IsIdentifier(name) && EndsWord(eol)
    ensures |x| == 2 && x[0] == 'a' && |y| == 2 && y[0] == 'b'
  {
    name, x, y, eol := "A", "a\n", "b\n", "\n";
    assert "#ifdef " + name + " \n" == lines[0];
    assert "#else" + eol == lines[2];
    assert "#endif " + eol == lines[4];
  }

  lemma FileHidesElse(lines: seq<string>, name: string)
    requires |lines| == 5 && ReadsAs(lines[0], Ifdef(name), Ifdef(name)) && ReadsAs(lines[1], Text, Text)
    requires ReadsAs(lines[2], Else, Text) && ReadsAs(lines[3], Text, Text) && ReadsAs(lines[4], Endif, Endif)
    ensures HidesElse(lines, name)
  {
    FileViews(lines);
    FileReads(lines);
  }

  lemma FileReads(lines: seq<string>)
    requires |lines| == 5
    ensures Reading(lines) == [CppClassify(lines[0]), CppClassify(lines[1]), CppClassify(lines[2]),
                               CppClassify(lines[3]), CppClassify(lines[4])]
  {
  }

  lemma FileViews(lines: seq<string>)
    requires |lines| == 5
    ensures Views(lines) == [Classify(lines[0]), Classify(lines[1]), Classify(lines[2]), Classify(lines[3]),
                             Classify(lines[4])]
  {
    ViewsAt(lines, 0);
    ViewsAt(lines, 1);
    ViewsAt(lines, 2);
    ViewsAt(lines, 3);
    ViewsAt(lines, 4);
  }

  lemma FileLosesText(comment: seq<string>, lines: seq<string>, name: string)
    requires IsText(comment) && HidesElse(lines, name) && IsIdentifier(name)
    ensures !Preserved(comment, lines, 4, 4)
  {
    HidesElseReading(lines, name);
    HidesElseViews(lines, name);
    MacroReadsBack(name);
    GuardsReads(IfdefTag, name);
    UnseenElseLosesText(lines, 4, 4, comment);
  }
}
