/** Single-bit arithmetic on 32-bit words: shifts as repeated doubling, and what they do to each bit. */
module Bits {

  /** x << d */
  function Shl(x: bv32, d: nat): bv32 {
    if d == 0 then x else Double(Shl(x, d - 1))
  }

  function Double(x: bv32): bv32 {
    x << 1
  }

  /** 1u << i */
  function Mask(i: nat): bv32 {
    Shl(1, i)
  }

  /** (x & m) != 0 */
  predicate Test(x: bv32, m: bv32) {
    x & m != 0
  }

  function Or(x: bv32, m: bv32): bv32 {
    x | m
  }

  predicate Bit(x: bv32, i: nat) {
    Test(x, Mask(i))
  }

  lemma {:induction false} MaskTable()
    ensures Mask(0) == 0x1
    ensures Mask(1) == 0x2
    ensures Mask(2) == 0x4
    ensures Mask(3) == 0x8
    ensures Mask(4) == 0x10
    ensures Mask(5) == 0x20
    ensures Mask(6) == 0x40
    ensures Mask(7) == 0x80
    ensures Mask(8) == 0x100
    ensures Mask(9) == 0x200
    ensures Mask(10) == 0x400
    ensures Mask(11) == 0x800
    ensures Mask(12) == 0x1000
    ensures Mask(13) == 0x2000
    ensures Mask(14) == 0x4000
    ensures Mask(15) == 0x8000
    ensures Mask(16) == 0x10000
    ensures Mask(17) == 0x20000
    ensures Mask(18) == 0x40000
    ensures Mask(19) == 0x80000
    ensures Mask(20) == 0x100000
    ensures Mask(21) == 0x200000
    ensures Mask(22) == 0x400000
    ensures Mask(23) == 0x800000
    ensures Mask(24) == 0x1000000
    ensures Mask(25) == 0x2000000
    ensures Mask(26) == 0x4000000
    ensures Mask(27) == 0x8000000
    ensures Mask(28) == 0x10000000
    ensures Mask(29) == 0x20000000
    ensures Mask(30) == 0x40000000
    ensures Mask(31) == 0x80000000
  {
    assert Shl(1, 1) == Shl(1, 0) << 1;
    assert Shl(1, 2) == Shl(1, 1) << 1;
    assert Shl(1, 3) == Shl(1, 2) << 1;
    assert Shl(1, 4) == Shl(1, 3) << 1;
    assert Shl(1, 5) == Shl(1, 4) << 1;
    assert Shl(1, 6) == Shl(1, 5) << 1;
    assert Shl(1, 7) == Shl(1, 6) << 1;
    assert Shl(1, 8) == Shl(1, 7) << 1;
    assert Shl(1, 9) == Shl(1, 8) << 1;
    assert Shl(1, 10) == Shl(1, 9) << 1;
    assert Shl(1, 11) == Shl(1, 10) << 1;
    assert Shl(1, 12) == Shl(1, 11) << 1;
    assert Shl(1, 13) == Shl(1, 12) << 1;
    assert Shl(1, 14) == Shl(1, 13) << 1;
    assert Shl(1, 15) == Shl(1, 14) << 1;
    assert Shl(1, 16) == Shl(1, 15) << 1;
    assert Shl(1, 17) == Shl(1, 16) << 1;
    assert Shl(1, 18) == Shl(1, 17) << 1;
    assert Shl(1, 19) == Shl(1, 18) << 1;
    assert Shl(1, 20) == Shl(1, 19) << 1;
    assert Shl(1, 21) == Shl(1, 20) << 1;
    assert Shl(1, 22) == Shl(1, 21) << 1;
    assert Shl(1, 23) == Shl(1, 22) << 1;
    assert Shl(1, 24) == Shl(1, 23) << 1;
    assert Shl(1, 25) == Shl(1, 24) << 1;
    assert Shl(1, 26) == Shl(1, 25) << 1;
    assert Shl(1, 27) == Shl(1, 26) << 1;
    assert Shl(1, 28) == Shl(1, 27) << 1;
    assert Shl(1, 29) == Shl(1, 28) << 1;
    assert Shl(1, 30) == Shl(1, 29) << 1;
    assert Shl(1, 31) == Shl(1, 30) << 1;
  }

  lemma {:induction false} MaskTop(i: nat)
    requires i < 32
    ensures Mask(i) != 0 && (i < 31 ==> !Test(Mask(i), 0x8000_0000))
  {
    hide Shl, Mask;
    MaskTable();
    assert i == 0 || i == 1 || i == 2 || i == 3 || i == 4 || i == 5 || i == 6 || i == 7
        || i == 8 || i == 9 || i == 10 || i == 11 || i == 12 || i == 13 || i == 14 || i == 15
        || i == 16 || i == 17 || i == 18 || i == 19 || i == 20 || i == 21 || i == 22 || i == 23
        || i == 24 || i == 25 || i == 26 || i == 27 || i == 28 || i == 29 || i == 30 || i == 31;
  }

  lemma {:induction false} ShiftBoth(y: bv32, m: bv32)
    requires !Test(m, 0x8000_0000)
    ensures Test(Double(y), Double(m)) <==> Test(y, m)
  {
  }

  /** Shifting left by d moves bit i - d to bit i and clears the d low bits. */
  lemma {:induction false} BitShl(x: bv32, d: nat, i: nat)
    requires i < 32
    ensures Bit(Shl(x, d), i) <==> i >= d && Bit(x, i - d)
  {
    hide Test, Mask, Double;
    if d > 0 {
      ShlStep(x, d);
      if i > 0 {
        MaskTop(i - 1);
        MaskStep(i);
        ShiftBoth(Shl(x, d - 1), Mask(i - 1));
        BitShl(x, d - 1, i - 1);
      } else {
        LowBit(Shl(x, d - 1));
      }
    }
  }

  lemma {:induction false} ShlStep(x: bv32, d: nat)
    requires d > 0
    ensures Shl(x, d) == Double(Shl(x, d - 1))
  {
  }

  lemma {:induction false} MaskStep(i: nat)
    requires i > 0
    ensures Mask(i) == Double(Mask(i - 1))
  {
  }

  lemma {:induction false} LowBit(y: bv32)
    ensures !Test(Double(y), Mask(0))
  {
  }

  lemma {:induction false} MasksDiffer(i: nat, j: nat)
    requires i < 32 && j < 32 && i != j
    ensures !Test(Mask(j), Mask(i))
  {
    if i > 0 && j > 0 {
      MasksDiffer(i - 1, j - 1);
      MaskTop(i - 1);
      MaskTop(j - 1);
      ShiftBoth(Mask(j - 1), Mask(i - 1));
    }
  }

  lemma {:induction false} OrTest(x: bv32, m: bv32, k: bv32)
    ensures !Test(m, k) ==> (Test(Or(x, m), k) <==> Test(x, k))
    ensures m != 0 ==> Test(Or(x, m), m)
  {
  }

  /** Setting bit j changes bit j and nothing else. */
  lemma {:induction false} BitOr(x: bv32, j: nat, i: nat)
    requires i < 32 && j < 32
    ensures Bit(Or(x, Mask(j)), i) <==> i == j || Bit(x, i)
  {
    if i == j {
      BitOrSame(x, i);
    } else {
      BitOrOther(x, j, i);
    }
  }

  lemma {:induction false} BitOrSame(x: bv32, i: nat)
    requires i < 32
    ensures Bit(Or(x, Mask(i)), i)
  {
    hide Shl, Mask, Test, Or;
    MaskTop(i);
    OrTest(x, Mask(i), Mask(i));
  }

  lemma {:induction false} BitOrOther(x: bv32, j: nat, i: nat)
    requires i < 32 && j < 32 && i != j
    ensures Bit(Or(x, Mask(j)), i) <==> Bit(x, i)
  {
    hide Shl, Mask, Test, Or;
    MasksDiffer(i, j);
    OrTest(x, Mask(j), Mask(i));
  }
}
