// The kernel symbol table of trace_helpers.c: names in one growing arena of NUL-terminated
// strings, entries in a growing array, sorted once and then searched by address.
module Ksyms {
  import opened Machine

  const MIN_CAP := 1024

  // While the table is built, `name` is an offset into the arena; afterwards it is a pointer.
  datatype Ksym = Ksym(name: nat, addr: U64)

  datatype Entry = Entry(name: string, addr: U64)

  // All names, each with its NUL.
  function Arena(added: seq<Entry>): seq<char> {
    if added == [] then [] else Arena(added[..|added| - 1]) + added[|added| - 1].name + [NUL]
  }

  // The string that starts at an offset of the arena.
  function ReadString(arena: seq<char>, at: nat): string
    decreases |arena| - at
  {
    if at >= |arena| || arena[at] == NUL then "" else [arena[at]] + ReadString(arena, at + 1)
  }

  lemma {:induction false} ReadsName(arena: seq<char>, at: nat, name: string)
    requires CString(name) && at + |name| < |arena|
    requires arena[at..at + |name|] == name && arena[at + |name|] == NUL
    ensures ReadString(arena, at) == name
    decreases |name|
  {
    if name != "" {
      assert arena[at] == arena[at..at + |name|][0];
      assert arena[at + 1..at + 1 + |name[1..]|] == arena[at..at + |name|][1..];
      assert NUL !in name[1..];
      ReadsName(arena, at + 1, name[1..]);
      assert name == [name[0]] + name[1..];
    }
  }

  function Offset(added: seq<Entry>, k: nat): nat
    requires k <= |added|
  {
    |Arena(added[..k])|
  }

  // Every name reads back from the arena, whatever was added after it.
  lemma NamesReadBack(added: seq<Entry>, k: nat)
    requires k < |added| && forall i :: 0 <= i < |added| ==> CString(added[i].name)
    ensures ReadString(Arena(added), Offset(added, k)) == added[k].name
  {
    ArenaHas(added, k);
    InArena(Arena(added), Arena(added[..k]), added[k].name);
  }

  lemma {:induction false} ArenaHas(added: seq<Entry>, k: nat)
    requires k < |added|
    ensures Arena(added[..k]) + added[k].name + [NUL] <= Arena(added)
    decreases |added|
  {
    if k < |added| - 1 {
      var short := added[..|added| - 1];
      ArenaHas(short, k);
      assert short[..k] == added[..k];
    }
  }

  lemma InArena(arena: seq<char>, before: seq<char>, name: string)
    requires CString(name) && before + name + [NUL] <= arena
    ensures ReadString(arena, |before|) == name
  {
    SliceOfPrefix(arena, before, name);
    ReadsName(arena, |before|, name);
  }

  lemma ArenaSnoc(es: seq<Entry>, e: Entry)
    ensures Arena(es + [e]) == Arena(es) + e.name + [NUL]
  {
    assert (es + [e])[..|es + [e]| - 1] == es;
  }

  lemma SliceOfPrefix(arena: seq<char>, before: seq<char>, name: string)
    requires before + name + [NUL] <= arena
    ensures |before| + |name| < |arena|
    ensures arena[|before|..|before| + |name|] == name && arena[|before| + |name|] == NUL
  {
    var upTo := before + name + [NUL];
    assert arena[|before| + |name|] == upTo[|before| + |name|];
    forall i | 0 <= i < |name|
      ensures arena[|before| + i] == name[i]
    {
      assert arena[|before| + i] == upTo[|before| + i];
    }
  }

  // ---------------------------------------------------------------------------
  // Order
  // ---------------------------------------------------------------------------

  // strcmp(a, b) <= 0.
  predicate StrLe(a: string, b: string) {
    a == "" || (b != "" && (a[0] < b[0] || (a[0] == b[0] && StrLe(a[1..], b[1..]))))
  }

  // ksym_cmp(x, y) <= 0.
  predicate EntryLe(x: Entry, y: Entry) {
    if x.addr == y.addr then StrLe(x.name, y.name) else x.addr < y.addr
  }

  lemma {:induction false} StrLeTotal(a: string, b: string)
    ensures StrLe(a, b) || StrLe(b, a)
    decreases |a|
  {
    if a != "" && b != "" {
      StrLeTotal(a[1..], b[1..]);
    }
  }

  lemma {:induction false} StrLeTransitive(a: string, b: string, c: string)
    requires StrLe(a, b) && StrLe(b, c)
    ensures StrLe(a, c)
    decreases |a|
  {
    if a != "" && a[0] == b[0] == c[0] {
      StrLeTransitive(a[1..], b[1..], c[1..]);
    }
  }

  lemma {:induction false} StrLeAntisymmetric(a: string, b: string)
    requires StrLe(a, b) && StrLe(b, a)
    ensures a == b
    decreases |a|
  {
    if a != "" && b != "" {
      StrLeAntisymmetric(a[1..], b[1..]);
      assert a == [a[0]] + a[1..] && b == [b[0]] + b[1..];
    }
  }

  // The order of dictionaries: a starts b, or is less at the first character where they differ.
  predicate LexLe(a: string, b: string) {
    a <= b || exists i :: 0 <= i < |a| && i < |b| && a[..i] == b[..i] && a[i] < b[i]
  }

  lemma {:induction false} StrLeExactly(a: string, b: string)
    ensures StrLe(a, b) <==> LexLe(a, b)
    decreases |a|
  {
    if a != "" && b != "" {
      StrLeExactly(a[1..], b[1..]);
      LexLeTail(a, b);
    }
  }

  lemma LexLeTail(a: string, b: string)
    requires a != "" && b != ""
    ensures LexLe(a, b) <==> a[0] < b[0] || (a[0] == b[0] && LexLe(a[1..], b[1..]))
  {
    if i :| 0 <= i < |a| && i < |b| && a[..i] == b[..i] && a[i] < b[i] {
      if i > 0 {
        assert a[0] == a[..i][0] == b[..i][0] == b[0];
        assert a[1..][..i - 1] == a[..i][1..] == b[..i][1..] == b[1..][..i - 1];
        assert a[1..][i - 1] < b[1..][i - 1];
      }
    }
    if a[0] < b[0] {
      assert a[..0] == b[..0];
    } else if a[0] == b[0] {
      assert a == [a[0]] + a[1..] && b == [b[0]] + b[1..];
      if i :| 0 <= i < |a[1..]| && i < |b[1..]| && a[1..][..i] == b[1..][..i] && a[1..][i] < b[1..][i] {
        assert a[..i + 1] == [a[0]] + a[1..][..i] == [b[0]] + b[1..][..i] == b[..i + 1];
        assert a[i + 1] < b[i + 1];
      }
    }
  }

  // An ordered table has increasing addresses, and the names at one address as in a dictionary.
  lemma OrderedExactly(es: seq<Entry>)
    ensures Ordered(es) <==> forall i, j :: 0 <= i < j < |es| ==>
      es[i].addr <= es[j].addr && (es[i].addr == es[j].addr ==> LexLe(es[i].name, es[j].name))
  {
    forall i, j | 0 <= i < j < |es|
      ensures EntryLe(es[i], es[j]) <==>
        es[i].addr <= es[j].addr && (es[i].addr == es[j].addr ==> LexLe(es[i].name, es[j].name))
    {
      StrLeExactly(es[i].name, es[j].name);
    }
  }

  ghost predicate Ordered(es: seq<Entry>) {
    forall i, j :: 0 <= i < j < |es| ==> EntryLe(es[i], es[j])
  }

  function EntryOf(arena: seq<char>, base: nat, k: Ksym): Entry {
    Entry(ReadString(arena, if k.name >= base then k.name - base else 0), k.addr)
  }

  // Insertion keeps an ordered list ordered.
  function Insert(arena: seq<char>, base: nat, k: Ksym, ks: seq<Ksym>): (r: seq<Ksym>)
    ensures |r| == |ks| + 1 && (r[0] == k || (ks != [] && r[0] == ks[0]))
    decreases |ks|
  {
    if ks == [] || EntryLe(EntryOf(arena, base, k), EntryOf(arena, base, ks[0])) then [k] + ks
    else [ks[0]] + Insert(arena, base, k, ks[1..])
  }

  function Sort(arena: seq<char>, base: nat, ks: seq<Ksym>): (r: seq<Ksym>)
    ensures |r| == |ks|
    decreases |ks|
  {
    if ks == [] then [] else Insert(arena, base, ks[0], Sort(arena, base, ks[1..]))
  }

  function Entries(arena: seq<char>, base: nat, ks: seq<Ksym>): (es: seq<Entry>)
    ensures |es| == |ks|
  {
    seq(|ks|, i requires 0 <= i < |ks| => EntryOf(arena, base, ks[i]))
  }

  lemma EntriesSplit(arena: seq<char>, base: nat, k: Ksym, ks: seq<Ksym>)
    ensures Entries(arena, base, [k] + ks) == [EntryOf(arena, base, k)] + Entries(arena, base, ks)
  {
  }

  lemma OrderedCons(e: Entry, es: seq<Entry>)
    requires Ordered(es) && (es != [] ==> EntryLe(e, es[0]))
    ensures Ordered([e] + es) && multiset([e] + es) == multiset(es) + multiset{e}
  {
    forall j | 0 <= j < |es|
      ensures EntryLe(e, es[j])
    {
      if j > 0 {
        assert EntryLe(es[0], es[j]);
        if e.addr == es[0].addr == es[j].addr {
          StrLeTransitive(e.name, es[0].name, es[j].name);
        }
      }
    }
  }

  lemma {:induction false} InsertSorts(arena: seq<char>, base: nat, k: Ksym, ks: seq<Ksym>)
    requires Ordered(Entries(arena, base, ks))
    ensures Ordered(Entries(arena, base, Insert(arena, base, k, ks)))
    ensures multiset(Entries(arena, base, Insert(arena, base, k, ks)))
         == multiset(Entries(arena, base, ks)) + multiset{EntryOf(arena, base, k)}
    decreases |ks|
  {
    var e := EntryOf(arena, base, k);
    if ks == [] || EntryLe(e, EntryOf(arena, base, ks[0])) {
      EntriesSplit(arena, base, k, ks);
      OrderedCons(e, Entries(arena, base, ks));
    } else {
      HeadAndTail(arena, base, ks);
      InsertSorts(arena, base, k, ks[1..]);
      var inserted := Insert(arena, base, k, ks[1..]);
      EntriesSplit(arena, base, ks[0], inserted);
      FirstStays(EntryOf(arena, base, ks[0]), e, Entries(arena, base, ks[1..]), Entries(arena, base, inserted));
    }
  }

  lemma HeadAndTail(arena: seq<char>, base: nat, ks: seq<Ksym>)
    requires Ordered(Entries(arena, base, ks)) && ks != []
    ensures Entries(arena, base, ks) == [EntryOf(arena, base, ks[0])] + Entries(arena, base, ks[1..])
    ensures Ordered(Entries(arena, base, ks[1..]))
    ensures |ks| > 1 ==> EntryLe(EntryOf(arena, base, ks[0]), Entries(arena, base, ks[1..])[0])
  {
    assert ks == [ks[0]] + ks[1..];
    EntriesSplit(arena, base, ks[0], ks[1..]);
    OrderedTail(EntryOf(arena, base, ks[0]), Entries(arena, base, ks[1..]));
  }

  // What is left of an ordered list after its first entry took in a later one.
  lemma FirstStays(first: Entry, e: Entry, rest: seq<Entry>, inserted: seq<Entry>)
    requires Ordered(inserted) && multiset(inserted) == multiset(rest) + multiset{e}
    requires !EntryLe(e, first) && (rest != [] ==> EntryLe(first, rest[0]))
    requires inserted != [] && (inserted[0] == e || (rest != [] && inserted[0] == rest[0]))
    ensures Ordered([first] + inserted)
    ensures multiset([first] + inserted) == multiset([first] + rest) + multiset{e}
  {
    StrLeTotal(e.name, first.name);
    OrderedCons(first, inserted);
  }

  lemma OrderedTail(first: Entry, rest: seq<Entry>)
    requires Ordered([first] + rest)
    ensures Ordered(rest)
    ensures rest != [] ==> EntryLe(first, rest[0])
  {
    var all := [first] + rest;
    forall i, j | 0 <= i < j < |rest|
      ensures EntryLe(rest[i], rest[j])
    {
      assert EntryLe(all[i + 1], all[j + 1]);
    }
    if rest != [] {
      assert EntryLe(all[0], all[1]);
    }
  }

  lemma {:induction false} SortSorts(arena: seq<char>, base: nat, ks: seq<Ksym>)
    ensures Ordered(Entries(arena, base, Sort(arena, base, ks)))
    ensures multiset(Entries(arena, base, Sort(arena, base, ks))) == multiset(Entries(arena, base, ks))
    decreases |ks|
  {
    if ks != [] {
      SortSorts(arena, base, ks[1..]);
      InsertSorts(arena, base, ks[0], Sort(arena, base, ks[1..]));
      assert ks == [ks[0]] + ks[1..];
      EntriesSplit(arena, base, ks[0], ks[1..]);
    }
  }

  // Two ordered tables with the same entries are equal, so any qsort builds the same table.
  lemma {:induction false} OrderedIsUnique(a: seq<Entry>, b: seq<Entry>)
    requires Ordered(a) && Ordered(b) && multiset(a) == multiset(b)
    ensures a == b
    decreases |a|
  {
    assert |a| == |multiset(a)| == |multiset(b)| == |b|;
    if a != [] {
      LeastFirst(a, b);
      LeastFirst(b, a);
      if a[0] != b[0] {
        StrLeAntisymmetric(a[0].name, b[0].name);
      }
      TailOf(a);
      TailOf(b);
      OrderedIsUnique(a[1..], b[1..]);
      assert a == [a[0]] + a[1..] && b == [b[0]] + b[1..];
    }
  }

  lemma TailOf(a: seq<Entry>)
    requires Ordered(a) && a != []
    ensures Ordered(a[1..]) && multiset(a[1..]) == multiset(a) - multiset{a[0]}
  {
    assert a == [a[0]] + a[1..];
    OrderedTail(a[0], a[1..]);
  }

  lemma LeastFirst(a: seq<Entry>, b: seq<Entry>)
    requires Ordered(a) && multiset(a) == multiset(b) && a != [] && b != []
    ensures a[0] == b[0] || EntryLe(a[0], b[0])
  {
    assert b[0] in multiset(b);
    assert b[0] in a;
    var j :| 0 <= j < |a| && a[j] == b[0];
  }
}
