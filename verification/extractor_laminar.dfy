// The regions of a file are laminar, and the first one that contains a range is the innermost.
module ExtractorLaminar {
  import opened Machine
  import opened ExtractorRegions

  // Region r closed before region or frame starting at `start` opened, or lies strictly inside.
  predicate BeforeOrInside(r: Region, start: nat) {
    r.end < start || start < r.start
  }

  // Ends increase, and of two regions the earlier one is disjoint from the later one or
  // strictly nested in it.
  ghost predicate Laminar(pres: seq<Region>) {
    && (forall i :: 0 <= i < |pres| ==> 1 <= pres[i].start <= pres[i].end)
    && (forall i, j :: 0 <= i < j < |pres| ==> pres[i].end < pres[j].end && BeforeOrInside(pres[i], pres[j].start))
  }

  ghost predicate ScanInv(s: Scan, k: nat) {
    && Laminar(s.pres)
    && (forall i :: 0 <= i < |s.pres| ==> s.pres[i].end < k)
    && (forall i :: 0 <= i < |s.stack| ==> 1 <= s.stack[i].start <= k)
    && (forall i, j :: 0 <= i < j < |s.stack| ==> s.stack[i].start < s.stack[j].start)
    && (forall i, j :: 0 <= i < |s.pres| && 0 <= j < |s.stack| ==> BeforeOrInside(s.pres[i], s.stack[j].start))
  }

  lemma PopKeepsInv(s: Scan, lc: nat)
    requires lc > 0 && ScanInv(s, lc - 1) && s.stack != []
    ensures ScanInv(Pop(s, lc).value, lc)
  {
  }

  lemma PushKeepsInv(s: Scan, f: Frame)
    requires f.start > 0 && ScanInv(s, f.start) && forall i :: 0 <= i < |s.stack| ==> s.stack[i].start < f.start
    ensures ScanInv(Push(s, f), f.start)
  {
  }

  lemma {:induction false} ScanKeepsInv(ds: seq<Directive>, k: nat)
    requires k <= |ds| && ScanTo(ds, k).Some?
    ensures ScanInv(ScanTo(ds, k).value, k)
  {
    if k > 0 {
      ScanKeepsInv(ds, k - 1);
      LineKeepsInv(ScanTo(ds, k - 1).value, ds[k - 1], k);
    }
  }

  lemma {:induction false} LineKeepsInv(s: Scan, d: Directive, k: nat)
    requires k > 0 && ScanInv(s, k - 1) && ScanLine(s, d, k).Some?
    ensures ScanInv(ScanLine(s, d, k).value, k)
  {
    assert ScanInv(s, k);
    match d
    case Ifdef(name) => PushKeepsInv(s, Frame(IfdefTag, name, k));
    case If(name) => PushKeepsInv(s, Frame(IfTag, name, k));
    case Ifndef(name) => PushKeepsInv(s, Frame(IfndefTag, name, k));
    case Elif(name) =>
      PopKeepsInv(s, k);
      PushKeepsInv(Pop(s, k).value, Frame(IfdefTag, name, k));
    case Else =>
      PopKeepsInv(s, k);
      PushKeepsInv(Pop(s, k).value, Frame(IfndefTag, s.stack[|s.stack| - 1].name, k));
    case Endif => PopKeepsInv(s, k);
    case Text =>
  }

  // For every file that the extractor gets through, whatever its directives, the recorded
  // regions are laminar, in increasing order of end.
  lemma RegionsAreLaminar(ds: seq<Directive>)
    requires ScanTo(ds, |ds|).Some?
    ensures Laminar(ScanTo(ds, |ds|).value.pres)
  {
    ScanKeepsInv(ds, |ds|);
  }

  predicate Contains(r: Region, st: int, en: int) {
    st >= r.start && en <= r.end
  }

  // The first region that contains the range.
  method ContainedInPreprocessor(pres: seq<Region>, st: int, en: int) returns (r: Option<Region>)
    ensures r == FirstContaining(pres, st, en)
    ensures r.None? <==> forall q :: q in pres ==> !Contains(q, st, en)
  {
    var i := 0;
    while i < |pres|
      invariant 0 <= i <= |pres|
      invariant forall q :: q in pres[..i] ==> !Contains(q, st, en)
      invariant FirstContaining(pres, st, en) == FirstContaining(pres[i..], st, en)
    {
      if Contains(pres[i], st, en) {
        return Some(pres[i]);
      }
      i := i + 1;
    }
    return None;
  }

  function FirstContaining(pres: seq<Region>, st: int, en: int): (r: Option<Region>)
    ensures r.Some? ==> r.value in pres && Contains(r.value, st, en)
    ensures r.None? ==> forall q :: q in pres ==> !Contains(q, st, en)
  {
    if pres == [] then None
    else if Contains(pres[0], st, en) then Some(pres[0])
    else FirstContaining(pres[1..], st, en)
  }

  // In a laminar family the first containing region is the innermost one: every other region
  // that contains the nonempty range strictly encloses it.
  lemma {:induction false} FirstIsInnermost(pres: seq<Region>, st: int, en: int)
    requires Laminar(pres) && st <= en
    ensures var r := FirstContaining(pres, st, en);
      forall q :: q in pres && Contains(q, st, en) ==>
        r.Some? && (q == r.value || (q.start < r.value.start && r.value.end < q.end))
  {
    if pres != [] {
      assert Laminar(pres[1..]);
      if Contains(pres[0], st, en) {
        forall q | q in pres && Contains(q, st, en)
          ensures q == pres[0] || (q.start < pres[0].start && pres[0].end < q.end)
        {
          var j :| 0 <= j < |pres| && pres[j] == q;
          if j > 0 {
            assert pres[0].end < pres[j].end && BeforeOrInside(pres[0], pres[j].start);
          }
        }
      } else {
        FirstIsInnermost(pres[1..], st, en);
      }
    }
  }
}
