// User-space symbols of trace_helpers.c: finding the mapping an address lies in, translating the
// address into the object file, and finding the symbol there.
module Dsos {
  import opened Machine
  import opened KsymsTable

  datatype ElfType = EXEC | DYN | PERF_MAP | VDSO | UNKNOWN

  datatype LoadRange = LoadRange(start: U64, end: U64, fileOff: U64)

  datatype Sym = Sym(name: string, start: U64, size: U64, offset: U64)

  predicate Relocated(kind: ElfType) {
    kind == DYN || kind == VDSO
  }

  // Where an address of a mapping lies in the object file, in 64-bit arithmetic.
  function ToFile(kind: ElfType, range: LoadRange, shAddr: U64, shOffset: U64, addr: U64): U64 {
    if Relocated(kind) then
      Wrap64(Wrap64(Wrap64(addr - range.start) + range.fileOff) + Wrap64(shAddr - shOffset))
    else addr
  }

  // The same in exact arithmetic: `at` is the place, in the file, of an address of a mapping. The
  // symbols of a shared object and of the vdso are given for the place that its section table
  // gives, up to a multiple of 2^64; those of any other file are given for the address itself.
  ghost predicate LiesAt(kind: ElfType, range: LoadRange, shAddr: U64, shOffset: U64, addr: U64, at: U64) {
    match kind
    case DYN | VDSO => exists k: int :: at == addr - range.start + range.fileOff + shAddr - shOffset + k * TWO64
    case EXEC | PERF_MAP | UNKNOWN => at == addr
  }

  // There is one such place.
  lemma LiesAtExactly(kind: ElfType, range: LoadRange, shAddr: U64, shOffset: U64, addr: U64, at: U64)
    ensures LiesAt(kind, range, shAddr, shOffset, addr, at) <==> at == ToFile(kind, range, shAddr, shOffset, addr)
  {
    if Relocated(kind) {
      FileExact(range, shAddr - shOffset, addr);
      CongruentExactly(addr - range.start + range.fileOff + shAddr - shOffset, at);
    }
  }

  lemma CongruentExactly(sum: int, at: U64)
    ensures (exists k: int :: at == sum + k * TWO64) <==> at == Wrap64(sum)
  {
    assert Wrap64(sum) == sum + -(sum / TWO64) * TWO64;
    forall k: int | at == sum + k * TWO64
      ensures at == Wrap64(sum)
    {
      WrapMultiple(sum, k);
      WrapSmall(at);
    }
  }

  // And back.
  function ToMemory(kind: ElfType, range: LoadRange, shAddr: U64, shOffset: U64, at: int): U64 {
    if Relocated(kind) then Wrap64(at - (shAddr - shOffset) - range.fileOff + range.start)
    else Wrap64(at)
  }

  lemma WrapInner(a: int, b: int)
    ensures Wrap64(a + Wrap64(b)) == Wrap64(a + b)
  {
    WrapAdd(b, a);
  }

  // The wrapped sum is the exact one, wrapped once.
  lemma FileExact(range: LoadRange, bias: int, addr: U64)
    ensures Wrap64(Wrap64(Wrap64(addr - range.start) + range.fileOff) + Wrap64(bias))
         == Wrap64(addr - range.start + range.fileOff + bias)
  {
    var inMap := addr - range.start;
    WrapAdd(inMap, range.fileOff);
    WrapInner(Wrap64(inMap + range.fileOff), bias);
    WrapAdd(inMap + range.fileOff, bias);
  }

  // The translation loses nothing, whatever wrapped on the way.
  lemma {:induction false} TranslationInverts(kind: ElfType, range: LoadRange, shAddr: U64, shOffset: U64, addr: U64)
    ensures ToMemory(kind, range, shAddr, shOffset, ToFile(kind, range, shAddr, shOffset, addr)) == addr
  {
    WrapSmall(addr);
    if Relocated(kind) {
      var bias := shAddr - shOffset;
      FileExact(range, bias, addr);
      WrapAdd(addr - range.start + range.fileOff + bias, -bias - range.fileOff + range.start);
    }
  }

  function Starts(syms: seq<Sym>): (a: seq<U64>)
    ensures |a| == |syms| && forall i :: 0 <= i < |a| ==> a[i] == syms[i].start
  {
    seq(|syms|, i requires 0 <= i < |syms| => syms[i].start)
  }

  predicate Ascending(a: seq<U64>) {
    forall i, j :: 0 <= i <= j < |a| ==> a[i] <= a[j]
  }

  class Dso {
    const kind: ElfType
    const ranges: seq<LoadRange>
    const shAddr: U64
    const shOffset: U64
    const syms: array<Sym>

    constructor (kind: ElfType, ranges: seq<LoadRange>, shAddr: U64, shOffset: U64, syms: array<Sym>)
      ensures this.kind == kind && this.ranges == ranges && this.syms == syms
      ensures this.shAddr == shAddr && this.shOffset == shOffset
    {
      this.kind, this.ranges, this.syms := kind, ranges, syms;
      this.shAddr, this.shOffset := shAddr, shOffset;
    }

    // The symbol an offset belongs to, with the distance into it noted in the entry.
    method FindSym(offset: U64) returns (r: Option<nat>)
      requires Ascending(Starts(syms[..]))
      modifies syms
      ensures LastAtMost(Starts(old(syms[..])), offset, r)
      ensures r.None? ==> syms[..] == old(syms[..])
      ensures r.Some? ==>
        var hit := old(syms[..])[r.value];
        syms[..] == old(syms[..])[r.value := hit.(offset := offset - hit.start)]
    {
      var start, end := 0, syms.Length - 1;
      ghost var addrs := Starts(syms[..]);
      while start < end
        invariant 0 <= start <= end + 1 <= syms.Length && (syms.Length > 0 ==> start <= end)
        invariant start > 0 ==> addrs[start] <= offset
        invariant forall i :: end < i < syms.Length ==> addrs[i] > offset
      {
        var mid := start + (end - start + 1) / 2;
        assert syms[mid].start == addrs[mid];
        if syms[mid].start <= offset {
          start := mid;
        } else {
          end := mid - 1;
        }
      }
      if start == end && syms[start].start <= offset {
        assert syms[start].start == addrs[start];
        syms[start] := syms[start].(offset := offset - syms[start].start);
        return Some(start);
      }
      return None;
    }
  }

  // No range before (i, j), in the order the tables are walked, has the address strictly inside.
  ghost predicate NoneBefore(dsos: seq<Dso>, addr: U64, i: int, j: int) {
    && (forall a, b :: 0 <= a < i && a < |dsos| && 0 <= b < |dsos[a].ranges| ==>
          addr <= dsos[a].ranges[b].start || dsos[a].ranges[b].end <= addr)
    && (0 <= i < |dsos| ==> forall b :: 0 <= b < j && b < |dsos[i].ranges| ==>
          addr <= dsos[i].ranges[b].start || dsos[i].ranges[b].end <= addr)
  }

  // syms__find_dso: the first range that holds the address, and the address in its file.
  method FindDso(dsos: seq<Dso>, addr: U64) returns (r: Option<Dso>, offset: U64, ghost at: nat, ghost j: nat)
    ensures r.None? ==> NoneBefore(dsos, addr, |dsos|, 0)
    ensures r.Some? ==>
      && at < |dsos| && r.value == dsos[at] && j < |r.value.ranges|
      && r.value.ranges[j].start < addr < r.value.ranges[j].end && NoneBefore(dsos, addr, at, j)
      && LiesAt(r.value.kind, r.value.ranges[j], r.value.shAddr, r.value.shOffset, addr, offset)
  {
    offset, at, j := 0, 0, 0;
    for i := 0 to |dsos|
      invariant NoneBefore(dsos, addr, i, 0)
    {
      var dso := dsos[i];
      for k := 0 to |dso.ranges|
        invariant NoneBefore(dsos, addr, i, k)
      {
        var range := dso.ranges[k];
        if addr <= range.start || addr >= range.end {
          continue;
        }
        if dso.kind == DYN || dso.kind == VDSO {
          offset := Wrap64(Wrap64(addr - range.start) + range.fileOff);
          offset := Wrap64(offset + Wrap64(dso.shAddr - dso.shOffset));
        } else {
          offset := addr;
        }
        LiesAtExactly(dso.kind, range, dso.shAddr, dso.shOffset, addr, offset);
        return Some(dso), offset, i, k;
      }
    }
    r := None;
  }

  // syms__map_addr_dso: the last symbol at or below the place of the address in the first object
  // that has it mapped, with the distance to that place, which leads back to the address; none
  // exactly when no object has it mapped, or all symbols lie above the place.
  method MapAddrDso(dsos: seq<Dso>, addr: U64)
      returns (r: Option<(Dso, nat)>, ghost at: nat, ghost j: nat, ghost place: U64)
    requires forall d :: d in dsos ==> Ascending(Starts(d.syms[..]))
    modifies set d | d in dsos :: d.syms
    ensures NoneBefore(dsos, addr, |dsos|, 0) ==> r.None?
    ensures r.Some? ==>
      var (dso, k) := r.value;
      && at < |dsos| && dso == dsos[at] && j < |dso.ranges| && k < dso.syms.Length
      && dso.ranges[j].start < addr < dso.ranges[j].end && NoneBefore(dsos, addr, at, j)
      && LiesAt(dso.kind, dso.ranges[j], dso.shAddr, dso.shOffset, addr, place)
      && var sym := dso.syms[k];
      && sym.start + sym.offset == place
      && ToMemory(dso.kind, dso.ranges[j], dso.shAddr, dso.shOffset, place) == addr
      && forall i :: k < i < dso.syms.Length ==> old(dso.syms[i].start) > place
    ensures r.None? && !NoneBefore(dsos, addr, |dsos|, 0) ==>
      && at < |dsos| && j < |dsos[at].ranges| && NoneBefore(dsos, addr, at, j)
      && var dso := dsos[at];
      && dso.ranges[j].start < addr < dso.ranges[j].end
      && LiesAt(dso.kind, dso.ranges[j], dso.shAddr, dso.shOffset, addr, place)
      && forall i :: 0 <= i < dso.syms.Length ==> old(dso.syms[i].start) > place
  {
    var found, offset;
    found, offset, at, j := FindDso(dsos, addr);
    place := offset;
    if found.None? {
      return None, at, j, place;
    }
    var dso := found.value;
    LiesAtExactly(dso.kind, dso.ranges[j], dso.shAddr, dso.shOffset, addr, place);
    TranslationInverts(dso.kind, dso.ranges[j], dso.shAddr, dso.shOffset, addr);
    var k := dso.FindSym(offset);
    r := if k.None? then None else Some((dso, k.value));
  }
}
