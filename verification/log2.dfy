// bits.bpf.h: the branchless base-2 logarithm that chooses a histogram slot.
module Log2 {
  import opened Machine

  function Pow2(k: nat): (r: nat)
    ensures r > 0
  {
    if k == 0 then 1 else 2 * Pow2(k - 1)
  }

  // The number of times v can be halved before it drops below 2; 0 for v = 0.
  function FloorLog2(v: nat): nat {
    if v < 2 then 0 else 1 + FloorLog2(v / 2)
  }

  lemma {:induction false} FloorLog2Exact(v: nat)
    requires v > 0
    ensures Pow2(FloorLog2(v)) <= v < Pow2(FloorLog2(v) + 1)
  {
    if v >= 2 {
      FloorLog2Exact(v / 2);
    }
  }

  lemma {:induction false} Pow2Monotone(j: nat, k: nat)
    requires j <= k
    ensures Pow2(j) <= Pow2(k)
    decreases k
  {
    if j < k {
      Pow2Monotone(j, k - 1);
    }
  }

  lemma {:induction false} Pow2Adds(j: nat, k: nat)
    ensures Pow2(j + k) == Pow2(j) * Pow2(k)
    decreases k
  {
    if k > 0 {
      Pow2Adds(j, k - 1);
      assert Pow2(j + k) == 2 * (Pow2(j) * Pow2(k - 1)) == Pow2(j) * (2 * Pow2(k - 1));
    }
  }

  // v shifted right by k, bit by bit.
  function Shr(v: nat, k: nat): nat
    decreases k
  {
    if k == 0 then v else Shr(v / 2, k - 1)
  }

  // Shifting k bits out takes k off the logarithm, as long as a bit is left.
  lemma {:induction false} ShiftLog(v: nat, k: nat)
    requires v >= Pow2(k)
    ensures FloorLog2(Shr(v, k)) + k == FloorLog2(v) && Shr(v, k) > 0
    decreases k
  {
    if k > 0 {
      ShiftLog(v / 2, k - 1);
    }
  }

  // What is left of a number of j + k bits has j bits, and is 0 if the number had k bits.
  lemma {:induction false} ShiftBelow(v: nat, j: nat, k: nat)
    requires v < Pow2(j + k)
    ensures Shr(v, k) < Pow2(j) && (v < Pow2(k) ==> Shr(v, k) == 0)
    decreases k
  {
    if k > 0 {
      ShiftBelow(v / 2, j, k - 1);
    }
  }

  // One line of the search: a number of at most 2w bits that needs more than w of them is moved
  // down by w bits.
  lemma Halve(v: nat, w: nat, shift: nat)
    requires v < Pow2(w + w) && shift == if v >= Pow2(w) then w else 0
    ensures Shr(v, shift) < Pow2(w) && FloorLog2(Shr(v, shift)) + shift == FloorLog2(v)
  {
    if v >= Pow2(w) {
      ShiftLog(v, w);
      ShiftBelow(v, w, w);
    }
  }

  // Bitwise or, bit by bit.
  function Or(a: nat, b: nat): nat {
    if a == 0 then b
    else if b == 0 then a
    else (if a % 2 == 1 || b % 2 == 1 then 1 else 0) + 2 * Or(a / 2, b / 2)
  }

  // The low k bits of a are 0.
  predicate LowClear(a: nat, k: nat)
    decreases k
  {
    k == 0 || (a % 2 == 0 && LowClear(a / 2, k - 1))
  }

  lemma {:induction false} OrDisjoint(a: nat, b: nat, k: nat)
    requires LowClear(a, k) && b < Pow2(k)
    ensures Or(a, b) == a + b
    decreases k
  {
    if a > 0 && b > 0 {
      OrDisjoint(a / 2, b / 2, k - 1);
    }
  }

  // Adding 0 or bit k to a number whose low k + 1 bits are 0 leaves its low k bits 0.
  lemma {:induction false} AddBit(a: nat, b: nat, k: nat)
    requires LowClear(a, k + 1) && (b == 0 || b == Pow2(k))
    ensures LowClear(a + b, k)
    decreases k
  {
    if k > 0 {
      AddBit(a / 2, b / 2, k - 1);
    }
  }

  // A truth value shifted left by k.
  function Flag(b: bool, k: nat): nat {
    if b then Pow2(k) else 0
  }

  // Three statements that bits.bpf.h repeats with other constants: if v is above the limit, its upper
  // half moves down by 2^k bits and r takes bit k.
  method Narrow(v0: nat, r0: nat, limit: nat, k: nat, ghost n: nat) returns (v: nat, r: nat)
    requires limit + 1 == Pow2(Pow2(k)) && v0 < Pow2(Pow2(k) + Pow2(k))
    requires LowClear(r0, k + 1) && r0 + FloorLog2(v0) == FloorLog2(n)
    ensures v < Pow2(Pow2(k))
    ensures LowClear(r, k) && r + FloorLog2(v) == FloorLog2(n)
  {
    var shift := Flag(v0 > limit, k);
    Halve(v0, Pow2(k), shift);
    v := Shr(v0, shift);
    OrDisjoint(r0, shift, k + 1);
    r := Or(r0, shift);
    AddBit(r0, shift, k);
  }

  method NarrowTo2(v0: nat, r0: nat, ghost n: nat) returns (v: nat, r: nat)
    requires v0 < Pow2(16) && LowClear(r0, 4) && r0 + FloorLog2(v0) == FloorLog2(n)
    ensures v < Pow2(2) && LowClear(r, 1) && r + FloorLog2(v) == FloorLog2(n)
  {
    Pow2Values();
    v, r := Narrow(v0, r0, 0xFF, 3, n);
    v, r := Narrow(v, r, 0xF, 2, n);
    v, r := Narrow(v, r, 0x3, 1, n);
  }

  method Log2(n: U32) returns (r: nat)
    ensures r == FloorLog2(n) < 32
  {
    Pow2Values();
    r := Flag(n > 0xFFFF, 4);
    Halve(n, 16, r);
    var v := Shr(n, r);
    v, r := NarrowTo2(v, r, n);
    OrDisjoint(r, Shr(v, 1), 1);
    r := Or(r, Shr(v, 1));
    LogBelow(n, 32);
  }

  lemma LogBelow(v: nat, k: nat)
    requires v < Pow2(k) && k > 0
    ensures FloorLog2(v) < k
  {
    if v > 0 {
      FloorLog2Exact(v);
      if FloorLog2(v) >= k {
        Pow2Monotone(k, FloorLog2(v));
      }
    }
  }

  lemma Pow2Values()
    ensures Pow2(1) == 2 && Pow2(2) == 4 && Pow2(3) == 8 && Pow2(4) == 16
    ensures Pow2(8) == 0x100 && Pow2(16) == 0x1_0000 && Pow2(32) == TWO32 && Pow2(64) == TWO64
  {
    Pow2Adds(16, 16);
    Pow2Adds(32, 32);
  }

  method Log2l(v: U64) returns (r: nat)
    ensures r == FloorLog2(v) < 64
  {
    Pow2Values();
    ShiftBelow(v, 32, 32);
    var hi := Shr(v, 32);
    if hi > 0 {
      ShiftLog(v, 32);
      r := Log2(hi);
      r := r + 32;
    } else {
      if v >= Pow2(32) {
        ShiftLog(v, 32);
      }
      r := Log2(v);
    }
  }
}
