// The archive walk of btf_helpers.c: a file is looked up by name in a ustar image held in memory
// ("ustar Interchange Format", pax utility, IEEE Std 1003.1).
module Tar {
  import opened Machine
  import opened Ksyms

  const BLOCK: nat := 512
  const NAME_FIELD: nat := 100
  const SIZE_AT: nat := 124

  // `size` is the text of the size field, up to its terminator.
  datatype File = File(name: string, size: string, content: seq<char>)

  predicate IsOctal(c: char) {
    '0' <= c <= '7'
  }

  predicate AllOctal(s: string) {
    forall i :: 0 <= i < |s| ==> IsOctal(s[i])
  }

  function Pow8(k: nat): nat {
    if k == 0 then 1 else 8 * Pow8(k - 1)
  }

  function OctalValue(s: string): (n: nat)
    requires AllOctal(s)
    ensures n < Pow8(|s|)
  {
    if s == "" then 0 else 8 * OctalValue(s[..|s| - 1]) + (s[|s| - 1] - '0') as nat
  }

  // The text of a number after the blanks that may stand before it.
  function Unpadded(s: string): string {
    if s != "" && s[0] == ' ' then Unpadded(s[1..]) else s
  }

  // s is blanks and then the octal digits of n.
  predicate IsSize(s: string, n: nat) {
    Unpadded(s) != "" && AllOctal(Unpadded(s)) && OctalValue(Unpadded(s)) == n
  }

  // The size of n bytes of content in whole blocks.
  function Padded(n: nat): (r: nat)
    ensures n <= r < n + BLOCK
  {
    if n == 0 then 0 else if n <= BLOCK then BLOCK else BLOCK + Padded(n - BLOCK)
  }

  // ---------------------------------------------------------------------------
  // The layout
  // ---------------------------------------------------------------------------

  // A header at `at`: the name fills its field or ends with a NUL, the size is octal text, perhaps after
  // blanks, that ends with a space or a NUL, and the content follows in whole blocks. All else is free.
  predicate HeaderAt(buf: seq<char>, at: nat, f: File) {
    && at + BLOCK + Padded(|f.content|) <= |buf|
    && 0 < |f.name| <= NAME_FIELD && CString(f.name)
    && buf[at..at + |f.name|] == f.name && (|f.name| < NAME_FIELD ==> buf[at + |f.name|] == NUL)
    && |f.size| <= 11 && IsSize(f.size, |f.content|)
    && buf[at + SIZE_AT..at + SIZE_AT + |f.size|] == f.size && buf[at + SIZE_AT + |f.size|] in [' ', NUL]
    && buf[at + BLOCK..][..|f.content|] == f.content
  }

  // Where the header of file k starts, or the end of the last file.
  function HeaderPos(files: seq<File>, k: nat): nat
    requires k <= |files|
  {
    if k == 0 then 0 else HeaderPos(files, k - 1) + BLOCK + Padded(|files[k - 1].content|)
  }

  predicate InPlace(buf: seq<char>, files: seq<File>, k: nat)
    requires k < |files|
  {
    HeaderAt(buf, HeaderPos(files, k), files[k])
  }

  // All files one after another, then a block that starts with a NUL.
  ghost predicate LaidOut(buf: seq<char>, files: seq<File>) {
    && (forall k :: 0 <= k < |files| ==> InPlace(buf, files, k))
    && HeaderPos(files, |files|) < |buf| && buf[HeaderPos(files, |files|)] == NUL
  }

  // ---------------------------------------------------------------------------
  // The walk
  // ---------------------------------------------------------------------------

  // sscanf with "%o", on text without a sign: blanks are skipped, then digits are read.
  function ScanOctal(buf: seq<char>, at: nat): Option<nat>
    decreases |buf| - at
  {
    if at < |buf| && buf[at] == ' ' then ScanOctal(buf, at + 1)
    else
      var digits := Digits(buf, at);
      if digits == "" then None else Some(OctalValue(digits))
  }

  function Digits(buf: seq<char>, at: nat): (r: string)
    ensures AllOctal(r)
    decreases |buf| - at
  {
    if at >= |buf| || !IsOctal(buf[at]) then "" else [buf[at]] + Digits(buf, at + 1)
  }

  lemma {:induction false} DigitsReadBack(buf: seq<char>, at: nat, s: string)
    requires AllOctal(s) && at + |s| < |buf| && buf[at..at + |s|] == s && !IsOctal(buf[at + |s|])
    ensures Digits(buf, at) == s
    decreases |s|
  {
    if s != "" {
      assert buf[at] == buf[at..at + |s|][0] == s[0];
      assert buf[at + 1..at + 1 + |s[1..]|] == buf[at..at + |s|][1..];
      DigitsReadBack(buf, at + 1, s[1..]);
      assert s == [s[0]] + s[1..];
    }
  }

  // A name shorter than its field is read as it is; a name that fills its field runs on into the
  // next field, so it is read as something longer than any name that is looked up.
  lemma NameReadsBack(buf: seq<char>, at: nat, f: File, name: string)
    requires HeaderAt(buf, at, f) && |name| < NAME_FIELD
    ensures ReadString(buf, at) == name <==> f.name == name
  {
    if |f.name| < NAME_FIELD {
      ReadsName(buf, at, f.name);
    } else {
      ReadsAtLeast(buf, at, f.name);
    }
  }

  lemma {:induction false} ReadsAtLeast(buf: seq<char>, at: nat, name: string)
    requires CString(name) && at + |name| <= |buf| && buf[at..at + |name|] == name
    ensures |ReadString(buf, at)| >= |name|
    decreases |name|
  {
    if name != "" {
      assert buf[at] == buf[at..at + |name|][0];
      assert buf[at + 1..at + 1 + |name[1..]|] == buf[at..at + |name|][1..];
      ReadsAtLeast(buf, at + 1, name[1..]);
    }
  }

  lemma SizeReadsBack(buf: seq<char>, at: nat, f: File)
    requires HeaderAt(buf, at, f)
    ensures ScanOctal(buf, at + SIZE_AT) == Some(|f.content|)
  {
    SizeReads(buf, at + SIZE_AT, f.size);
  }

  lemma {:induction false} SizeReads(buf: seq<char>, at: nat, s: string)
    requires AllOctal(Unpadded(s)) && Unpadded(s) != ""
    requires at + |s| < |buf| && buf[at..at + |s|] == s && !IsOctal(buf[at + |s|])
    ensures ScanOctal(buf, at) == Some(OctalValue(Unpadded(s)))
    decreases |s|
  {
    assert buf[at] == buf[at..at + |s|][0] == s[0];
    if s[0] == ' ' {
      assert buf[at + 1..at + 1 + |s[1..]|] == buf[at..at + |s|][1..];
      SizeReads(buf, at + 1, s[1..]);
    } else {
      DigitsReadBack(buf, at, s);
    }
  }

  // An unsigned value stored in an int.
  function ToInt(n: nat): (r: int)
    ensures -(TWO31 as int) <= r < TWO31 && (n - r) % TWO32 == 0
  {
    var low := Wrap32(n);
    if low < TWO31 then low else low - TWO32
  }

  // r is the position of the first file with the name; None when no file has it.
  predicate IsFirst(files: seq<File>, name: string, r: Option<nat>) {
    match r
    case None => forall k :: 0 <= k < |files| ==> files[k].name != name
    case Some(k) => k < |files| && files[k].name == name && forall i :: 0 <= i < k ==> files[i].name != name
  }

  function FirstNamed(files: seq<File>, name: string): (r: Option<nat>)
    ensures IsFirst(files, name, r)
  {
    if files == [] then None
    else if files[0].name == name then Some(0)
    else match FirstNamed(files[1..], name) case None => None case Some(k) => Some(k + 1)
  }

  lemma OnlyFirst(files: seq<File>, name: string, r: Option<nat>)
    requires IsFirst(files, name, r)
    ensures r == FirstNamed(files, name)
  {
  }

  lemma {:induction false} Advance(n: nat)
    ensures (1 + (n + 511) / 512) * BLOCK == BLOCK + Padded(n)
    decreases n
  {
    if n > BLOCK {
      Advance(n - BLOCK);
    }
  }

  // The walk steps over the header and the content, in whole blocks.
  method Skip(tar: nat, length: int) returns (next: nat)
    requires 0 <= length
    ensures next == tar + BLOCK + Padded(length)
  {
    Advance(length);
    next := tar + (1 + (length + 511) / 512) * BLOCK;
  }

  lemma ToIntSmall(n: nat)
    requires n < TWO31
    ensures ToInt(n) == n
  {
  }

  lemma FieldsRead(buf: seq<char>, tar: nat, f: File, name: string)
    requires HeaderAt(buf, tar, f) && |buf| < TWO31 && |name| < NAME_FIELD
    ensures ScanOctal(buf, tar + SIZE_AT) == Some(|f.content|) && ToInt(|f.content|) == |f.content|
    ensures ReadString(buf, tar) == name <==> f.name == name
    ensures tar + BLOCK + |f.content| <= |buf|
    ensures buf[tar + BLOCK..][..|f.content|] == f.content
  {
    ToIntSmall(|f.content|);
    SizeReadsBack(buf, tar, f);
    NameReadsBack(buf, tar, f, name);
  }

  // The walk stands at a file or at the end.
  lemma AtHeader(buf: seq<char>, files: seq<File>, i: nat)
    requires LaidOut(buf, files) && i <= |files|
    ensures var tar := HeaderPos(files, i); tar < |buf| && (buf[tar] == NUL <==> i == |files|)
  {
    if i < |files| {
      assert InPlace(buf, files, i);
      NonEmptyStart(buf, HeaderPos(files, i), files[i]);
    }
  }

  // What the walk reads at a file.
  lemma AtFile(buf: seq<char>, files: seq<File>, i: nat, tar: nat, name: string)
    requires LaidOut(buf, files) && i < |files| && tar == HeaderPos(files, i)
    requires |buf| < TWO31 && |name| < NAME_FIELD
    ensures var n := |files[i].content|;
      && ScanOctal(buf, tar + SIZE_AT) == Some(n) && ToInt(n) == n
      && tar + BLOCK + n <= |buf| && buf[tar + BLOCK..][..n] == files[i].content
    ensures ReadString(buf, tar) == name <==> files[i].name == name
  {
    assert InPlace(buf, files, i);
    FieldsRead(buf, tar, files[i], name);
  }

  // The content of the first file of that name and its length, and NULL exactly when there is none.
  // A name that is looked up is cut to 99 characters by its caller; an image that inflated into a
  // buffer whose size is an int is smaller than 2^31 bytes.
  method TarFileStart(buf: seq<char>, name: string, ghost files: seq<File>)
      returns (r: Option<nat>, length: int)
    requires LaidOut(buf, files) && |buf| < TWO31 && |name| < NAME_FIELD
    ensures r == None <==> forall f :: f in files ==> f.name != name
    ensures match FirstNamed(files, name)
      case None => r == None
      case Some(k) =>
        && r == Some(HeaderPos(files, k) + BLOCK) && length == |files[k].content|
        && r.value + length <= |buf| && buf[r.value..][..length] == files[k].content
  {
    var tar: nat := 0;
    length := 0;
    ghost var i := 0;
    AtHeader(buf, files, 0);
    while buf[tar] != NUL
      invariant 0 <= i <= |files| && tar == HeaderPos(files, i) < |buf|
      invariant buf[tar] == NUL <==> i == |files|
      invariant forall j :: 0 <= j < i ==> files[j].name != name
      decreases |files| - i
    {
      AtFile(buf, files, i, tar, name);
      var parsed := ScanOctal(buf, tar + SIZE_AT);
      if parsed.Some? {
        length := ToInt(parsed.value);
      }
      if ReadString(buf, tar) == name {
        OnlyFirst(files, name, Some(i));
        return Some(tar + BLOCK), length;
      }
      tar := Skip(tar, length);
      i := i + 1;
      AtHeader(buf, files, i);
    }
    OnlyFirst(files, name, None);
    r := None;
  }

  lemma NonEmptyStart(buf: seq<char>, at: nat, f: File)
    requires HeaderAt(buf, at, f)
    ensures buf[at] != NUL
  {
    assert buf[at] == buf[at..at + |f.name|][0] == f.name[0];
  }

  // ---------------------------------------------------------------------------
  // A writer
  // ---------------------------------------------------------------------------

  function Zeros(n: nat): (r: seq<char>)
    ensures |r| == n && forall i :: 0 <= i < n ==> r[i] == NUL
  {
    seq(n, _ => NUL)
  }

  // n as k octal digits.
  function Octal(n: nat, k: nat): (s: string)
    ensures |s| == k && AllOctal(s)
    decreases k
  {
    if k == 0 then "" else Octal(n / 8, k - 1) + ['0' + (n % 8) as char]
  }

  lemma {:induction false} OctalReadsBack(n: nat, k: nat)
    requires n < Pow8(k)
    ensures OctalValue(Octal(n, k)) == n
    decreases k
  {
    if k > 0 {
      OctalReadsBack(n / 8, k - 1);
      var s := Octal(n, k);
      assert s[..k - 1] == Octal(n / 8, k - 1);
    }
  }

  // The fields that the walk does not read: mode, user and group, and all after the size.
  datatype Meta = Meta(mode: seq<char>, uid: seq<char>, gid: seq<char>, rest: seq<char>)

  predicate ValidMeta(m: Meta) {
    |m.mode| == |m.uid| == |m.gid| == 8 && |m.rest| == 376
  }

  // Name, mode, user, group and size take 100, three times 8, and 12 characters.
  function Header(name: string, size: string, m: Meta): (h: seq<char>)
    requires |name| <= 100 && |size| <= 11 && ValidMeta(m)
    ensures |h| == BLOCK && h[..|name|] == name && h[SIZE_AT..SIZE_AT + |size|] == size
    ensures (|name| < NAME_FIELD ==> h[|name|] == NUL) && h[SIZE_AT + |size|] == NUL
  {
    var nameField, sizeField := name + Zeros(100 - |name|), size + Zeros(12 - |size|);
    var upToSize := nameField + m.mode + m.uid + m.gid;
    var h := upToSize + sizeField + m.rest;
    assert h[..|name|] == nameField[..|name|] == name;
    assert |name| < 100 ==> h[|name|] == nameField[|name|] == NUL;
    assert h[|upToSize|..|upToSize| + |size|] == sizeField[..|size|] == size;
    assert h[|upToSize| + |size|] == sizeField[|size|] == NUL;
    h
  }

  // What a writer is given: a name that fits, and the size in at most 11 octal digits.
  predicate Writable(f: File) {
    && 0 < |f.name| <= NAME_FIELD && CString(f.name)
    && 0 < |f.size| <= 11
    && |f.content| < Pow8(|f.size|) && f.size == Octal(|f.content|, |f.size|)
  }

  function WriteFile(f: File, m: Meta): (r: seq<char>)
    requires Writable(f) && ValidMeta(m)
    ensures |r| == BLOCK + Padded(|f.content|)
  {
    Header(f.name, f.size, m) + f.content + Zeros(Padded(|f.content|) - |f.content|)
  }

  ghost predicate AllWritable(files: seq<File>, metas: seq<Meta>) {
    |metas| == |files| && forall k :: 0 <= k < |files| ==> Writable(files[k]) && ValidMeta(metas[k])
  }

  ghost function Parts(files: seq<File>, metas: seq<Meta>): (parts: seq<seq<char>>)
    requires AllWritable(files, metas)
    ensures |parts| == |files| && forall k :: 0 <= k < |files| ==> parts[k] == WriteFile(files[k], metas[k])
  {
    seq(|files|, k requires 0 <= k < |files| => WriteFile(files[k], metas[k]))
  }

  // The first k parts one after another, and the ones from k on.
  function Concat(parts: seq<seq<char>>, k: nat): seq<char>
    requires k <= |parts|
  {
    if k == 0 then [] else Concat(parts, k - 1) + parts[k - 1]
  }

  function Tail(parts: seq<seq<char>>, k: nat): seq<char>
    requires k <= |parts|
    decreases |parts| - k
  {
    if k == |parts| then [] else parts[k] + Tail(parts, k + 1)
  }

  // The files as they are written, and two empty blocks.
  ghost function Archive(files: seq<File>, metas: seq<Meta>): seq<char>
    requires AllWritable(files, metas)
  {
    Concat(Parts(files, metas), |files|) + Zeros(2 * BLOCK)
  }

  lemma {:induction false} ConcatSplits(parts: seq<seq<char>>, k: nat)
    requires k <= |parts|
    ensures Concat(parts, |parts|) == Concat(parts, k) + Tail(parts, k)
    decreases |parts| - k
  {
    if k == |parts| {
      assert Concat(parts, k) + [] == Concat(parts, k);
    } else {
      ConcatSplits(parts, k + 1);
      Assoc(Concat(parts, k), parts[k], Tail(parts, k + 1));
    }
  }

  lemma {:induction false} ConcatLength(files: seq<File>, parts: seq<seq<char>>, k: nat)
    requires k <= |files| == |parts|
    requires forall i :: 0 <= i < |files| ==> |parts[i]| == BLOCK + Padded(|files[i].content|)
    ensures |Concat(parts, k)| == HeaderPos(files, k)
  {
    if k > 0 {
      ConcatLength(files, parts, k - 1);
    }
  }

  // Every archive written so is laid out as the walk expects, whatever follows it.
  lemma {:induction false} ArchivesAreLaidOut(files: seq<File>, metas: seq<Meta>, after: seq<char>)
    requires AllWritable(files, metas)
    ensures LaidOut(Archive(files, metas) + after, files)
  {
    var buf, parts := Archive(files, metas) + after, Parts(files, metas);
    forall k | 0 <= k < |files|
      ensures InPlace(buf, files, k)
    {
      ConcatLength(files, parts, k);
      PartInPlace(buf, parts, files[k], metas[k], after, k);
    }
    ConcatLength(files, parts, |files|);
    assert buf[HeaderPos(files, |files|)] == Zeros(2 * BLOCK)[0];
  }

  lemma PartInPlace(buf: seq<char>, parts: seq<seq<char>>, f: File, m: Meta, after: seq<char>, k: nat)
    requires k < |parts| && buf == Concat(parts, |parts|) + Zeros(2 * BLOCK) + after
    requires Writable(f) && ValidMeta(m) && parts[k] == WriteFile(f, m)
    ensures HeaderAt(buf, |Concat(parts, k)|, f)
  {
    ConcatSplits(parts, k);
    Regroup(Concat(parts, k), parts[k], Tail(parts, k + 1), Zeros(2 * BLOCK), after);
    WrittenHeader(buf, Concat(parts, k), f, m, Tail(parts, k + 1) + Zeros(2 * BLOCK) + after, |Concat(parts, k)|);
  }

  lemma Regroup(a: seq<char>, b: seq<char>, c: seq<char>, d: seq<char>, e: seq<char>)
    ensures a + (b + c) + d + e == a + b + (c + d + e)
  {
  }

  lemma WritesSize(f: File)
    requires Writable(f)
    ensures IsSize(f.size, |f.content|)
  {
    OctalReadsBack(|f.content|, |f.size|);
    assert IsOctal(f.size[0]) && Unpadded(f.size) == f.size;
  }

  lemma WrittenHeader(buf: seq<char>, before: seq<char>, f: File, m: Meta, after: seq<char>, at: nat)
    requires Writable(f) && ValidMeta(m) && buf == before + WriteFile(f, m) + after && |before| == at
    ensures HeaderAt(buf, at, f)
  {
    WritesSize(f);
    var h, pad := Header(f.name, f.size, m), Zeros(Padded(|f.content|) - |f.content|);
    assert buf == before + h + f.content + pad + after;
    HeaderInPlace(buf, before, h, pad, after, f);
  }

  lemma HeaderInPlace(buf: seq<char>, before: seq<char>, h: seq<char>, pad: seq<char>, after: seq<char>, f: File)
    requires |h| == BLOCK && |f.content| + |pad| == Padded(|f.content|)
    requires 0 < |f.name| <= NAME_FIELD && CString(f.name) && h[..|f.name|] == f.name
    requires |f.name| < NAME_FIELD ==> h[|f.name|] == NUL
    requires |f.size| <= 11 && IsSize(f.size, |f.content|)
    requires h[SIZE_AT..SIZE_AT + |f.size|] == f.size && h[SIZE_AT + |f.size|] == NUL
    requires buf == before + h + f.content + pad + after
    ensures HeaderAt(buf, |before|, f)
  {
    var at := |before|;
    assert buf[at..at + BLOCK] == h;
    Within(buf, at, h, 0, |f.name|);
    Within(buf, at, h, SIZE_AT, SIZE_AT + |f.size|);
    assert buf[at + BLOCK..][..|f.content|] == f.content;
  }

  lemma Within(buf: seq<char>, at: nat, h: seq<char>, i: nat, j: nat)
    requires i <= j < |h| && at + |h| <= |buf| && buf[at..at + |h|] == h
    ensures buf[at + i..at + j] == h[i..j] && buf[at + j] == h[j]
  {
    assert buf[at + j] == buf[at..at + |h|][j];
    forall k | i <= k < j
      ensures buf[at + k] == h[k]
    {
      assert buf[at + k] == buf[at..at + |h|][k];
    }
  }
}
