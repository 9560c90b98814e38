// Machine integers, C strings and the result types shared by every model of the project.
module Machine {

  const TWO8: nat := 0x100
  const TWO31: nat := 0x8000_0000
  const TWO32: nat := 0x1_0000_0000
  const TWO63: nat := 0x8000_0000_0000_0000
  const TWO64: nat := 0x1_0000_0000_0000_0000

  type U8 = x: nat | x < TWO8
  type U32 = x: nat | x < TWO32
  type U64 = x: nat | x < TWO64

  // Unsigned 64-bit arithmetic keeps the low 64 bits of the exact result.
  function Wrap64(x: int): U64 {
    x % TWO64
  }

  lemma WrapAdd(a: int, b: int)
    ensures Wrap64(Wrap64(a) + b) == Wrap64(a + b)
  {
    assert a == TWO64 * (a / TWO64) + Wrap64(a);
    WrapMultiple(Wrap64(a) + b, a / TWO64);
  }

  lemma WrapSmall(a: nat)
    requires a < TWO64
    ensures Wrap64(a) == a
  {
  }

  lemma WrapMultiple(a: int, k: int)
    ensures Wrap64(a + TWO64 * k) == Wrap64(a)
  {
    var q := a / TWO64;
    assert a == TWO64 * q + Wrap64(a);
    assert a + TWO64 * k == TWO64 * (q + k) + Wrap64(a);
  }

  function Wrap32(x: int): U32 {
    x % TWO32
  }

  const NUL := '\0'

  // A string of C, without its terminator.
  predicate CString(s: string) {
    NUL !in s
  }

  lemma Assoc<T>(a: seq<T>, b: seq<T>, c: seq<T>)
    ensures a + b + c == a + (b + c)
  {
  }

  lemma AppendTail<T>(a: seq<T>, b: seq<T>)
    requires a != []
    ensures (a + b)[0] == a[0] && (a + b)[1..] == a[1..] + b
  {
  }

  datatype Option<+T> = None | Some(value: T)

  datatype Result<+T> = Ok(value: T) | Failed
}
