// Building the symbol table in place, and searching it.
module KsymsTable {
  import opened Machine
  import opened Ksyms

  // ---------------------------------------------------------------------------
  // Growth
  // ---------------------------------------------------------------------------

  // The 4/3 policy with a floor of 1024.
  function Grown(cap: nat): (r: nat)
    ensures cap == 0 || cap >= MIN_CAP ==> r > cap
  {
    var newCap := cap * 4 / 3;
    if newCap < MIN_CAP then MIN_CAP else newCap
  }

  // The capacity after n additions to an empty table.
  function CapAfter(n: nat): nat {
    if n == 0 then 0
    else
      var cap := CapAfter(n - 1);
      if n > cap then Grown(cap) else cap
  }

  // The entries copied because the array moved, over n additions.
  function MovedAfter(n: nat): nat {
    if n == 0 then 0
    else MovedAfter(n - 1) + if n > CapAfter(n - 1) then n - 1 else 0
  }

  predicate Amortised(cap: nat, n: nat, moved: nat) {
    if cap == 0 then n == 0 && moved == 0
    else n <= cap && cap >= MIN_CAP && 341 * moved <= 1025 * (cap - MIN_CAP) && (cap > MIN_CAP ==> 3 * cap <= 4 * n)
  }

  lemma {:induction false} GrowthAmortises(n: nat)
    ensures Amortised(CapAfter(n), n, MovedAfter(n))
  {
    if n > 0 {
      GrowthAmortises(n - 1);
      if n > CapAfter(n - 1) {
        OneGrowth(CapAfter(n - 1), MovedAfter(n - 1));
      }
    }
  }

  lemma OneGrowth(cap: nat, moved: nat)
    requires Amortised(cap, cap, moved)
    ensures Amortised(Grown(cap), cap + 1, moved + cap)
  {
    if cap >= MIN_CAP {
      var newCap := cap * 4 / 3;
      assert newCap >= MIN_CAP + 341;
      assert 1023 * cap <= 1025 * (3 * newCap - 3 * cap);
    }
  }

  // The array always has room, and over n additions at most 5n entries are moved.
  lemma {:induction false} MovesAreLinear(n: nat)
    ensures n <= CapAfter(n) && MovedAfter(n) <= 5 * n
  {
    GrowthAmortises(n);
  }

  // It grows exactly when it is full, and then all entries are moved.
  lemma GrowsWhenFull(n: nat)
    ensures if CapAfter(n) == n then CapAfter(n + 1) > n && MovedAfter(n + 1) == MovedAfter(n) + n
            else CapAfter(n + 1) == CapAfter(n) && MovedAfter(n + 1) == MovedAfter(n)
  {
    GrowthAmortises(n);
  }

  // ---------------------------------------------------------------------------
  // The table
  // ---------------------------------------------------------------------------

  // r is the index of the last address that is at most x; None when there is none.
  ghost predicate LastAtMost(addrs: seq<U64>, x: U64, r: Option<nat>) {
    match r
    case None => forall i :: 0 <= i < |addrs| ==> addrs[i] > x
    case Some(k) => k < |addrs| && addrs[k] <= x && forall i :: k < i < |addrs| ==> addrs[i] > x
  }

  // Every entry holds the address of its symbol and where its name lies from `base` on.
  ghost predicate Points(ks: seq<Ksym>, base: nat, added: seq<Entry>) {
    && |ks| == |added|
    && forall k :: 0 <= k < |ks| ==> ks[k] == Ksym(base + Offset(added, k), added[k].addr)
  }

  ghost predicate AllCStrings(added: seq<Entry>) {
    forall k :: 0 <= k < |added| ==> CString(added[k].name)
  }

  ghost predicate Holds(strs: seq<char>, ks: seq<Ksym>, added: seq<Entry>) {
    strs == Arena(added) && Points(ks, 0, added) && AllCStrings(added)
  }

  // One more symbol moves no name.
  lemma HoldsSnoc(strs: seq<char>, ks: seq<Ksym>, added: seq<Entry>, e: Entry)
    requires Holds(strs, ks, added) && CString(e.name)
    ensures Holds(strs + e.name + [NUL], ks + [Ksym(|strs|, e.addr)], added + [e])
  {
    ArenaSnoc(added, e);
    var ks', added' := ks + [Ksym(|strs|, e.addr)], added + [e];
    OffsetsStay(added, e);
    assert added[..|added|] == added;
    forall k | 0 <= k < |ks'|
      ensures ks'[k] == Ksym(Offset(added', k), added'[k].addr)
    {
      assert k < |added| ==> ks[k] == Ksym(0 + Offset(added, k), added[k].addr);
    }
  }

  class Table {
    var syms: array<Ksym>
    var symsSz: nat
    var strs: array<char>
    var strsSz: nat
    ghost var added: seq<Entry>
    ghost var moved: nat

    // While the table is built: the arena holds all names, and every entry the offset of its own.
    ghost predicate Building()
      reads this, syms, strs
    {
      && symsSz <= syms.Length && strsSz <= strs.Length
      && Holds(strs[..strsSz], syms[..symsSz], added)
      && syms.Length == CapAfter(|added|) && moved == MovedAfter(|added|)
    }

    constructor ()
      ensures Building() && added == []
      ensures fresh(syms) && fresh(strs)
    {
      syms, symsSz := new Ksym[0], 0;
      strs, strsSz := new char[0], 0;
      added, moved := [], 0;
    }

    method GrowStrs(nameLen: nat)
      requires strsSz <= strs.Length
      modifies this`strs
      ensures strsSz + nameLen <= strs.Length && (strs == old(strs) || fresh(strs))
      ensures strs[..strsSz] == old(strs[..strsSz])
    {
      if strsSz + nameLen > strs.Length {
        var newCap := strs.Length * 4 / 3;
        if newCap < strsSz + nameLen {
          newCap := strsSz + nameLen;
        }
        if newCap < MIN_CAP {
          newCap := MIN_CAP;
        }
        var tmp := new char[newCap];
        forall i | 0 <= i < strsSz {
          tmp[i] := strs[i];
        }
        assert tmp[..strsSz] == strs[..strsSz];
        strs := tmp;
      }
    }

    method GrowSyms()
      requires symsSz == |added| <= syms.Length
      requires syms.Length == CapAfter(|added|) && moved == MovedAfter(|added|)
      modifies this`syms, this`moved
      ensures symsSz < syms.Length && (syms == old(syms) || fresh(syms))
      ensures syms[..symsSz] == old(syms[..symsSz])
      ensures syms.Length == CapAfter(|added| + 1) && moved == MovedAfter(|added| + 1)
    {
      MovesAreLinear(symsSz + 1);
      if symsSz + 1 > syms.Length {
        var newCap := syms.Length * 4 / 3;
        if newCap < MIN_CAP {
          newCap := MIN_CAP;
        }
        var tmp := new Ksym[newCap](_ => Ksym(0, 0));
        forall i | 0 <= i < symsSz {
          tmp[i] := syms[i];
        }
        assert tmp[..symsSz] == syms[..symsSz];
        syms := tmp;
        moved := moved + symsSz;
      }
    }

    // Room for one more symbol and its name.
    method Reserve(nameLen: nat)
      requires symsSz == |added| <= syms.Length && strsSz <= strs.Length
      requires syms.Length == CapAfter(|added|) && moved == MovedAfter(|added|)
      modifies this`strs, this`syms, this`moved
      ensures symsSz < syms.Length && strsSz + nameLen <= strs.Length
      ensures (syms == old(syms) || fresh(syms)) && (strs == old(strs) || fresh(strs))
      ensures strs[..strsSz] == old(strs[..strsSz]) && syms[..symsSz] == old(syms[..symsSz])
      ensures syms.Length == CapAfter(|added| + 1) && moved == MovedAfter(|added| + 1)
    {
      GrowStrs(nameLen);
      GrowSyms();
    }

    // memcpy of the name and its NUL to the end of the arena.
    method CopyName(name: string)
      requires strsSz + |name| < strs.Length
      modifies strs
      ensures strs[..strsSz + |name| + 1] == old(strs[..strsSz]) + name + [NUL]
    {
      var i := 0;
      while i < |name|
        invariant 0 <= i <= |name|
        invariant strs[..strsSz + i] == old(strs[..strsSz]) + name[..i]
      {
        strs[strsSz + i] := name[i];
        i := i + 1;
      }
      strs[strsSz + i] := NUL;
    }

    // Writes the next entry and its name into the room that is there.
    method Store(name: string, addr: U64)
      requires symsSz < syms.Length && strsSz + |name| < strs.Length
      modifies this`symsSz, this`strsSz, syms, strs
      ensures symsSz == old(symsSz) + 1 && strsSz == old(strsSz) + |name| + 1 <= strs.Length
      ensures syms[..symsSz] == old(syms[..symsSz]) + [Ksym(old(strsSz), addr)]
      ensures strs[..strsSz] == old(strs[..strsSz]) + name + [NUL]
    {
      syms[symsSz] := Ksym(strsSz, addr);
      CopyName(name);
      strsSz := strsSz + |name| + 1;
      symsSz := symsSz + 1;
    }

    method ReserveAndStore(name: string, addr: U64)
      requires symsSz == |added| <= syms.Length && strsSz <= strs.Length
      requires syms.Length == CapAfter(|added|) && moved == MovedAfter(|added|)
      modifies this`strs, this`syms, this`moved, this`symsSz, this`strsSz, syms, strs
      ensures symsSz <= syms.Length && strsSz <= strs.Length
      ensures (syms == old(syms) || fresh(syms)) && (strs == old(strs) || fresh(strs))
      ensures strs[..strsSz] == old(strs[..strsSz]) + name + [NUL]
      ensures syms[..symsSz] == old(syms[..symsSz]) + [Ksym(old(strsSz), addr)]
      ensures syms.Length == CapAfter(|added| + 1) && moved == MovedAfter(|added| + 1)
    {
      Reserve(|name| + 1);
      Store(name, addr);
    }

    method AddSymbol(name: string, addr: U64)
      requires Building() && CString(name)
      modifies this, syms, strs
      ensures Building() && added == old(added) + [Entry(name, addr)]
      ensures (syms == old(syms) || fresh(syms)) && (strs == old(strs) || fresh(strs))
    {
      HoldsSnoc(strs[..strsSz], syms[..symsSz], added, Entry(name, addr));
      ReserveAndStore(name, addr);
      added := added + [Entry(name, addr)];
    }

    // The table as its readers see it: every name pointer followed into the arena.
    ghost function Names(base: nat): (es: seq<Entry>)
      requires symsSz <= syms.Length && strsSz <= strs.Length
      reads this, syms, strs
    {
      Entries(strs[..strsSz], base, syms[..symsSz])
    }

    // Turns offsets into pointers into the arena at `base`.
    method FixUp(base: nat)
      requires Building()
      modifies syms
      ensures Names(base) == added
    {
      var i := 0;
      ghost var was := syms[..symsSz];
      while i < symsSz
        invariant 0 <= i <= symsSz
        invariant forall k :: 0 <= k < i ==> syms[k] == was[k].(name := was[k].name + base)
        invariant forall k :: i <= k < symsSz ==> syms[k] == was[k]
      {
        syms[i] := syms[i].(name := syms[i].name + base);
        i := i + 1;
      }
      assert was == old(syms[..symsSz]);
      assert Points(syms[..symsSz], base, added) by {
        assert forall k :: 0 <= k < symsSz ==> was[k] == Ksym(0 + Offset(added, k), added[k].addr);
      }
      FixedNames(added, base, syms[..symsSz]);
    }

    // Sorts by (addr, name). It stands for qsort: any sort gives the same table, as
    // OrderedIsUnique shows.
    method QSort(base: nat)
      requires symsSz <= syms.Length && strsSz <= strs.Length
      modifies syms
      ensures Ordered(Names(base)) && multiset(Names(base)) == multiset(old(Names(base)))
    {
      ghost var arena := strs[..strsSz];
      var sorted := Sort(strs[..strsSz], base, syms[..symsSz]);
      SortSorts(arena, base, syms[..symsSz]);
      forall k | 0 <= k < symsSz {
        syms[k] := sorted[k];
      }
      assert syms[..symsSz] == sorted && strs[..strsSz] == arena;
    }

    // The last symbol at or below an address.
    method MapAddr(addr: U64, ghost base: nat) returns (r: Option<nat>)
      requires symsSz <= syms.Length && strsSz <= strs.Length && Ordered(Names(base))
      ensures LastAtMost(Addrs(syms[..symsSz]), addr, r)
    {
      AddrsOrdered(strs[..strsSz], base, syms[..symsSz]);
      ghost var addrs := Addrs(syms[..symsSz]);
      var start, end := 0, symsSz - 1;
      while start < end
        invariant 0 <= start <= end + 1 <= symsSz && (symsSz > 0 ==> start <= end)
        invariant forall i :: 0 <= i < start ==> addrs[i] <= addrs[start]
        invariant start > 0 ==> addrs[start] <= addr
        invariant forall i :: end < i < symsSz ==> addrs[i] > addr
      {
        var mid := start + (end - start + 1) / 2;
        assert syms[mid].addr == addrs[mid];
        if syms[mid].addr <= addr {
          start := mid;
        } else {
          end := mid - 1;
        }
      }
      if start == end && syms[start].addr <= addr {
        assert syms[start].addr == addrs[start];
        return Some(start);
      }
      return None;
    }
  }

  function Addrs(ks: seq<Ksym>): (a: seq<U64>)
    ensures |a| == |ks| && forall i :: 0 <= i < |a| ==> a[i] == ks[i].addr
  {
    seq(|ks|, i requires 0 <= i < |ks| => ks[i].addr)
  }

  lemma AddrsOrdered(arena: seq<char>, base: nat, ks: seq<Ksym>)
    requires Ordered(Entries(arena, base, ks))
    ensures forall i, j :: 0 <= i <= j < |ks| ==> Addrs(ks)[i] <= Addrs(ks)[j]
  {
    var es := Entries(arena, base, ks);
    forall i, j | 0 <= i <= j < |ks|
      ensures Addrs(ks)[i] <= Addrs(ks)[j]
    {
      assert es[i].addr == ks[i].addr && es[j].addr == ks[j].addr;
      assert i < j ==> EntryLe(es[i], es[j]);
    }
  }

  // A search of the sorted table answers for the symbols that were read: it finds none exactly when
  // no symbol lies at or below the address, and otherwise one that no such symbol comes after.
  lemma SearchIsNearest(arena: seq<char>, base: nat, ks: seq<Ksym>, input: seq<Entry>, addr: U64, r: Option<nat>)
    requires Ordered(Entries(arena, base, ks)) && multiset(Entries(arena, base, ks)) == multiset(input)
    requires LastAtMost(Addrs(ks), addr, r)
    ensures r.None? <==> forall e :: e in input ==> e.addr > addr
    ensures r.Some? ==>
      var hit := EntryOf(arena, base, ks[r.value]);
      hit in input && hit.addr <= addr && forall e :: e in input && e.addr <= addr ==> e == hit || EntryLe(e, hit)
  {
    var es := Entries(arena, base, ks);
    forall e | e in input
      ensures exists i :: 0 <= i < |es| && es[i] == e && Addrs(ks)[i] == e.addr
    {
      assert e in multiset(input);
      assert e in es;
    }
    if r.Some? {
      assert es[r.value] in multiset(es);
      assert es[r.value] in input;
      forall e | e in input && e.addr <= addr
        ensures e == es[r.value] || EntryLe(e, es[r.value])
      {
        var i :| 0 <= i < |es| && es[i] == e && Addrs(ks)[i] == e.addr;
      }
    }
  }

  lemma FixedNames(added: seq<Entry>, base: nat, ks: seq<Ksym>)
    requires Points(ks, base, added) && AllCStrings(added)
    ensures Entries(Arena(added), base, ks) == added
  {
    forall k | 0 <= k < |added|
      ensures EntryOf(Arena(added), base, ks[k]) == added[k]
    {
      NamesReadBack(added, k);
    }
  }

  method Build(input: seq<Entry>) returns (t: Table)
    requires AllCStrings(input)
    ensures fresh(t) && fresh(t.syms) && fresh(t.strs)
    ensures t.Building() && t.added == input
  {
    t := new Table();
    var i := 0;
    while i < |input|
      invariant 0 <= i <= |input|
      invariant fresh(t) && fresh(t.syms) && fresh(t.strs)
      invariant t.Building() && t.added == input[..i]
    {
      t.AddSymbol(input[i].name, input[i].addr);
      i := i + 1;
    }
    assert input[..i] == input;
  }

  // ksyms__load: whatever the growth did on the way, the table is the sorted list of the symbols
  // read, all names intact, and building it moved at most 5 entries per symbol.
  method Load(input: seq<Entry>, base: nat) returns (t: Table)
    requires AllCStrings(input)
    ensures fresh(t) && t.symsSz <= t.syms.Length && t.strsSz <= t.strs.Length
    ensures Ordered(t.Names(base)) && multiset(t.Names(base)) == multiset(input)
    ensures t.moved <= 5 * |input|
  {
    t := Build(input);
    MovesAreLinear(|input|);
    t.FixUp(base);
    t.QSort(base);
  }

  lemma OffsetsStay(added: seq<Entry>, e: Entry)
    ensures forall k :: 0 <= k <= |added| ==> Offset(added + [e], k) == Offset(added, k)
  {
    forall k | 0 <= k <= |added|
      ensures Offset(added + [e], k) == Offset(added, k)
    {
      assert (added + [e])[..k] == added[..k];
    }
  }
}
