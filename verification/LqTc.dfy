/**
 LQ_TC messages: border flags (calculate_border_flag and serialize_lq_tc in src/lq_packet.c) and the
 address intervals that receivers rebuild from them (src/tc_set.c).
 */
module Border {
  import opened NetBuffer

  /** An address in network byte order. */
  type Address = seq<Byte>

  /** Byte order comparison of addresses of equal length. */
  predicate Less(a: Address, b: Address)
    requires |a| == |b|
    decreases |a|
  {
    a != [] && (a[0] < b[0] || (a[0] == b[0] && Less(a[1..], b[1..])))
  }

  predicate AtMost(a: Address, b: Address)
    requires |a| == |b|
  {
    a == b || Less(a, b)
  }

  /** 2^b for the bits of a byte. */
  function Pow(b: nat): nat
    requires b <= 8
  {
    if b == 0 then 1 else if b == 1 then 2 else if b == 2 then 4 else if b == 3 then 8
    else if b == 4 then 16 else if b == 5 then 32 else if b == 6 then 64 else if b == 7 then 128 else 256
  }

  /** (x & (0xfe << b)) == (y & (0xfe << b)) on unsigned 8-bit values */
  predicate SameAbove(x: Byte, y: Byte, b: nat)
    requires b < 8
  {
    x / Pow(b + 1) == y / Pow(b + 1)
  }

  function FirstDifference(a: Address, b: Address): (p: nat)
    requires |a| == |b| && a != b
    ensures p < |a| && a[..p] == b[..p] && a[p] != b[p]
  {
    if a[0] != b[0] then 0
    else
      assert a == [a[0]] + a[1..] && b == [b[0]] + b[1..];
      var p := 1 + FirstDifference(a[1..], b[1..]);
      assert a[..p] == [a[0]] + a[1..][..p - 1] && b[..p] == [b[0]] + b[1..][..p - 1];
      p
  }

  /** The highest bit in which two different bytes differ. */
  function TopBit(x: Byte, y: Byte): (b: nat)
    requires x != y
    ensures b < 8 && SameAbove(x, y, b) && (b > 0 ==> !SameAbove(x, y, b - 1))
  {
    if SameAbove(x, y, 0) then 0 else if SameAbove(x, y, 1) then 1 else if SameAbove(x, y, 2) then 2
    else if SameAbove(x, y, 3) then 3 else if SameAbove(x, y, 4) then 4 else if SameAbove(x, y, 5) then 5
    else if SameAbove(x, y, 6) then 6 else 7
  }

  /** One more than the number, counted from the low end, of the highest bit in which the addresses differ. */
  function BorderFlag(lower: Address, higher: Address): (f: nat)
    requires |lower| == |higher|
    ensures f == 0 <==> lower == higher
    ensures f <= 8 * |lower|
  {
    if lower == higher then 0
    else
      var p := FirstDifference(lower, higher);
      TopBit(lower[p], higher[p]) + 8 * (|lower| - p - 1) + 1
  }

  /** calculate_border_flag */
  method CalculateBorderFlag(lower: Address, higher: Address) returns (flag: nat)
    requires |lower| == |higher|
    ensures flag == BorderFlag(lower, higher)
  {
    var part := 0;
    while part < |lower|
      invariant part <= |lower|
      invariant lower[..part] == higher[..part]
    {
      if lower[part] != higher[part] {
        break;
      }
      part := part + 1;
    }
    if part == |lower| {
      assert lower[..part] == lower && higher[..part] == higher;
      return 0;
    }
    FirstDifferenceUnique(lower, higher, part);
    var bitpos := 0;
    while bitpos < 8
      invariant bitpos <= 7
      invariant forall b :: 0 <= b < bitpos ==> !SameAbove(lower[part], higher[part], b)
    {
      if SameAbove(lower[part], higher[part], bitpos) {
        break;
      }
      bitpos := bitpos + 1;
    }
    TopBitUnique(lower[part], higher[part], bitpos);
    bitpos := bitpos + 8 * (|lower| - part - 1);
    return bitpos + 1;
  }

  lemma {:induction false} FirstDifferenceUnique(a: Address, b: Address, p: nat)
    requires |a| == |b| && p < |a| && a[..p] == b[..p] && a[p] != b[p]
    ensures FirstDifference(a, b) == p
  {
    var q := FirstDifference(a, b);
    assert forall i :: 0 <= i < p ==> a[..p][i] == a[i] && b[..p][i] == b[i];
    assert forall i :: 0 <= i < q ==> a[..q][i] == a[i] && b[..q][i] == b[i];
  }

  lemma {:induction false} TopBitUnique(x: Byte, y: Byte, b: nat)
    requires x != y && b < 8 && SameAbove(x, y, b)
    requires forall c :: 0 <= c < b ==> !SameAbove(x, y, c)
    ensures TopBit(x, y) == b
  {
  }

  // ---- What a receiver rebuilds ---------------------------------------------------------------------

  /** x & (0xff << b) | (1 << b) */
  function CutByte(x: Byte, b: nat): Byte
    requires b < 8
  {
    x / Pow(b + 1) * Pow(b + 1) + Pow(b)
  }

  /** The border address rebuilt from a flag and an address next to the border (olsr_calculate_tc_border). */
  function Cut(a: Address, flag: nat): (c: Address)
    requires 1 <= flag <= 8 * |a|
    ensures |c| == |a|
  {
    var p := |a| - (flag - 1) / 8 - 1;
    a[..p] + [CutByte(a[p], (flag - 1) % 8)] + Zeros(|a| - p - 1)
  }

  function Zeros(n: nat): (z: Address)
    ensures |z| == n && forall i :: 0 <= i < n ==> z[i] == 0
  {
    seq(n, _ => 0)
  }

  function Ones(n: nat): (z: Address)
    ensures |z| == n && forall i :: 0 <= i < n ==> z[i] == 255
  {
    seq(n, _ => 255)
  }

  /** A flag that names a bit of an n-byte address, or the end of the address space. */
  predicate Flag(flag: nat, n: nat) {
    1 <= flag <= 8 * n || flag == 0xff
  }

  function Rebuilt(a: Address, flag: nat, end: Byte): Address
    requires Flag(flag, |a|)
  {
    if flag == 0xff then seq(|a|, _ => end) else Cut(a, flag)
  }

  /** olsr_calculate_tc_border for one border, in place; 0xff stands for the end of the address space. */
  method RebuildBorder(a: array<Byte>, flag: nat, end: Byte)
    requires Flag(flag, a.Length)
    modifies a
    ensures a[..] == Rebuilt(old(a[..]), flag, end)
  {
    if flag == 0xff {
      for i := 0 to a.Length
        invariant forall j :: 0 <= j < i ==> a[j] == end
      {
        a[i] := end;
      }
    } else {
      var border := flag - 1;
      for i := 0 to border / 8
        invariant forall j :: a.Length - i <= j < a.Length ==> a[j] == 0
        invariant forall j :: 0 <= j < a.Length - i ==> a[j] == old(a[j])
      {
        a[a.Length - i - 1] := 0;
      }
      var p := a.Length - border / 8 - 1;
      a[p] := CutByte(a[p], border % 8);
      assert a[..p] == old(a[..])[..p];
      assert a[..] == a[..p] + [a[p]] + Zeros(a.Length - p - 1);
    }
  }

  /** olsr_calculate_tc_border: two flags of zero, as in plain TC messages, set no borders. */
  method CalculateTcBorder(lowerFlag: nat, lower: array<Byte>, upperFlag: nat, upper: array<Byte>) returns (isSet: bool)
    requires lower != upper
    requires lowerFlag == upperFlag == 0 || (Flag(lowerFlag, lower.Length) && Flag(upperFlag, upper.Length))
    modifies lower, upper
    ensures isSet <==> !(lowerFlag == upperFlag == 0)
    ensures !isSet ==> lower[..] == old(lower[..]) && upper[..] == old(upper[..])
    ensures isSet ==> lower[..] == Rebuilt(old(lower[..]), lowerFlag, 0)
    ensures isSet ==> upper[..] == Rebuilt(old(upper[..]), upperFlag, 0xff)
  {
    if lowerFlag == 0 && upperFlag == 0 {
      return false;
    }
    RebuildBorder(lower, lowerFlag, 0);
    RebuildBorder(upper, upperFlag, 0xff);
    return true;
  }

  // ---- The cut lies between -----------------------------------------------------------------------------

  /** Two values in the same block of 2m but not in the same half lie on both sides of its middle. */
  lemma {:induction false} Halves(x: nat, y: nat, m: nat)
    requires m > 0 && x < y && x / (2 * m) == y / (2 * m) && x / m != y / m
    ensures x < x / (2 * m) * (2 * m) + m <= y
  {
    var q := x / (2 * m);
    var t := q * (2 * m);
    assert t <= x < t + 2 * m && t <= y < t + 2 * m;
    assert t == 2 * q * m;
    if y < t + m {
      Quotient(x, 2 * q, m);
      Quotient(y, 2 * q, m);
    } else if t + m <= x {
      assert t + m == (2 * q + 1) * m;
      Quotient(x, 2 * q + 1, m);
      Quotient(y, 2 * q + 1, m);
    }
  }

  lemma {:induction false} Quotient(x: nat, q: nat, m: nat)
    requires m > 0 && q * m <= x < q * m + m
    ensures x / m == q
  {
    var d := x / m;
    assert d * m <= x < d * m + m;
    assert d < q ==> (d + 1) * m <= q * m;
    assert q < d ==> (q + 1) * m <= d * m;
  }

  lemma {:induction false} TopBitOrder(x: Byte, y: Byte)
    requires x < y
    ensures var b := TopBit(x, y); CutByte(x, b) == CutByte(y, b) && x < CutByte(y, b) <= y
  {
    var b := TopBit(x, y);
    assert Pow(b + 1) == 2 * Pow(b);
    Halves(x, y, Pow(b));
  }

  lemma {:induction false} LessAt(a: Address, b: Address, p: nat)
    requires |a| == |b| && p < |a| && a[..p] == b[..p] && a[p] < b[p]
    ensures Less(a, b) && !Less(b, a)
    decreases p
  {
    if p > 0 {
      assert a[..p][0] == b[..p][0];
      assert a[1..][..p - 1] == a[..p][1..] && b[1..][..p - 1] == b[..p][1..];
      LessAt(a[1..], b[1..], p - 1);
    }
  }

  lemma {:induction false} AtMostAt(a: Address, b: Address, p: nat)
    requires |a| == |b| && p <= |a| && a[..p] == b[..p]
    requires forall i :: p <= i < |a| ==> a[i] == 0
    ensures AtMost(a, b)
  {
    if a != b {
      var q := FirstDifference(a, b);
      assert forall i :: 0 <= i < p ==> a[..p][i] == a[i] && b[..p][i] == b[i];
      LessAt(a, b, q);
    }
  }

  lemma {:induction false} LessOrGreater(a: Address, b: Address)
    requires |a| == |b| && a != b
    ensures Less(a, b) <==> a[FirstDifference(a, b)] < b[FirstDifference(a, b)]
    ensures Less(a, b) <==> !Less(b, a)
  {
    var p := FirstDifference(a, b);
    if a[p] < b[p] {
      LessAt(a, b, p);
    } else {
      LessAt(b, a, p);
    }
  }

  lemma {:induction false} FlagPlace(a: Address, b: Address)
    requires |a| == |b| && a != b
    ensures var p, f := FirstDifference(a, b), BorderFlag(a, b);
            1 <= f <= 8 * |a| && |a| - (f - 1) / 8 - 1 == p && (f - 1) % 8 == TopBit(a[p], b[p])
  {
  }

  /** Both neighbours of a border rebuild the same address, and it separates them in byte order. */
  lemma {:induction false} CutSeparates(lower: Address, higher: Address)
    requires |lower| == |higher| && Less(lower, higher)
    ensures lower != higher
    ensures var f := BorderFlag(lower, higher);
            && Cut(lower, f) == Cut(higher, f)
            && Less(lower, Cut(lower, f)) && AtMost(Cut(higher, f), higher)
  {
    hide Less, TopBit, CutByte, SameAbove, BorderFlag;
    NotLessThanItself(lower);
    var p := FirstDifference(lower, higher);
    var f := BorderFlag(lower, higher);
    LessOrGreater(lower, higher);
    FlagPlace(lower, higher);
    TopBitOrder(lower[p], higher[p]);
    var c := Cut(lower, f);
    assert c == Cut(higher, f);
    assert c[..p] == lower[..p];
    LessAt(lower, c, p);
    if c[p] < higher[p] {
      LessAt(c, higher, p);
    } else {
      assert c[..p + 1] == higher[..p + 1] by {
        assert c[..p + 1] == c[..p] + [c[p]] && higher[..p + 1] == higher[..p] + [higher[p]];
      }
      AtMostAt(c, higher, p + 1);
    }
  }

  lemma {:induction false} NotLessThanItself(a: Address)
    ensures !Less(a, a)
  {
    if a != [] { NotLessThanItself(a[1..]); }
  }

  lemma {:induction false} FlagSymmetric(a: Address, b: Address)
    requires |a| == |b|
    ensures BorderFlag(a, b) == BorderFlag(b, a)
  {
    if a != b {
      FirstDifferenceUnique(b, a, FirstDifference(a, b));
    }
  }

  /** The border separates its neighbours exactly when they stand in byte order. */
  lemma {:induction false} CutSeparatesExactly(lower: Address, higher: Address)
    requires |lower| == |higher| && lower != higher
    ensures var f := BorderFlag(lower, higher);
            Less(lower, Cut(lower, f)) && AtMost(Cut(higher, f), higher) <==> Less(lower, higher)
  {
    hide BorderFlag, TopBit;
    LessOrGreater(lower, higher);
    if Less(lower, higher) {
      CutSeparates(lower, higher);
    } else {
      FlagSymmetric(lower, higher);
      CutSeparates(higher, lower);
      var c := Cut(lower, BorderFlag(lower, higher));
      if c == lower {
        NotLessThanItself(lower);
      } else {
        LessOrGreater(c, lower);
      }
    }
  }

  /** An IPv4 address read as a number by a little-endian host, which is how ip4cmp compares. */
  function HostOrder(a: Address): nat
    requires |a| == 4
  {
    a[0] as int + 0x100 * a[1] as int + 0x1_0000 * a[2] as int + 0x100_0000 * a[3] as int
  }

  /** The border of two addresses separates them in the order of a little-endian host. */
  ghost predicate HostSeparates(lower: Address, higher: Address)
    requires |lower| == |higher| == 4 && lower != higher
  {
    HostOrder(lower) < HostOrder(Cut(lower, BorderFlag(lower, higher))) <= HostOrder(higher)
  }

  /** The first differing byte, which counts least there, ascends and nothing but zeros follows it below. */
  predicate HostAligned(lower: Address, higher: Address)
    requires |lower| == |higher| == 4 && lower != higher
  {
    var p := FirstDifference(lower, higher);
    lower[p] < higher[p] && forall j :: p < j < 4 ==> lower[j] == 0
  }

  lemma {:induction false} TopBitSymmetric(x: Byte, y: Byte)
    requires x != y
    ensures TopBit(x, y) == TopBit(y, x)
  {
  }

  /** The cut of any two addresses: their common start, a byte between the first that differ, and zeros. */
  lemma {:induction false} CutParts(lower: Address, higher: Address)
    requires |lower| == |higher| && lower != higher
    ensures var p, f := FirstDifference(lower, higher), BorderFlag(lower, higher);
            && 1 <= f <= 8 * |lower| && Cut(lower, f) == Cut(higher, f)
            && var c := Cut(lower, f);
               && (forall j :: 0 <= j < p ==> c[j] == lower[j]) && (forall j :: p < j < |c| ==> c[j] == 0)
               && if lower[p] < higher[p] then lower[p] < c[p] <= higher[p] else higher[p] < c[p] <= lower[p]
  {
    hide TopBit, CutByte, SameAbove, BorderFlag;
    var p := FirstDifference(lower, higher);
    FlagPlace(lower, higher);
    TopBitSymmetric(lower[p], higher[p]);
    if lower[p] < higher[p] {
      TopBitOrder(lower[p], higher[p]);
    } else {
      TopBitOrder(higher[p], lower[p]);
    }
    assert forall j :: 0 <= j < p ==> lower[..p][j] == lower[j];
  }

  /** On a little-endian host the border separates two IPv4 addresses exactly when they are aligned this way. */
  lemma {:induction false} HostSeparatesExactly(lower: Address, higher: Address)
    requires |lower| == |higher| == 4 && lower != higher
    ensures HostSeparates(lower, higher) <==> HostAligned(lower, higher)
  {
    hide Cut, BorderFlag;
    CutParts(lower, higher);
    var p, c := FirstDifference(lower, higher), Cut(lower, BorderFlag(lower, higher));
    assert forall j :: 0 <= j < p ==> lower[..p][j] == lower[j] && higher[..p][j] == higher[j];
    assert p == 0 || p == 1 || p == 2 || p == 3;
  }

  /** Ascending in both orders is not enough there: the cut of these two lies below both. */
  lemma {:induction false} HostOrderIsNotEnough() returns (lower: Address, higher: Address)
    ensures |lower| == |higher| == 4 && lower != higher
    ensures HostOrder(lower) < HostOrder(higher) && Less(lower, higher) && !HostSeparates(lower, higher)
    ensures HostOrder(Cut(lower, BorderFlag(lower, higher))) < HostOrder(lower)
  {
    lower, higher := [10, 0, 0, 1], [11, 0, 0, 2];
    hide Cut, BorderFlag, TopBit;
    assert FirstDifference(lower, higher) == 0;
    CutParts(lower, higher);
    HostSeparatesExactly(lower, higher);
  }

  // ---- Flags and cuts as numbers ------------------------------------------------------------------------

  /** An address as a number, its first byte the most significant one. */
  ghost function Value(a: Address): nat {
    if a == [] then 0 else Value(a[..|a| - 1]) * 256 + a[|a| - 1] as nat
  }

  ghost function Pow2(k: nat): (p: nat)
    ensures p > 0
  {
    if k == 0 then 1 else 2 * Pow2(k - 1)
  }

  lemma {:induction false} Pow2Bytes(k: nat)
    ensures k >= 8 ==> Pow2(k) == 256 * Pow2(k - 8)
    ensures k <= 8 ==> Pow2(k) == Pow(k)
  {
    assert Pow2(1) == 2 * Pow2(0);
    assert Pow2(2) == 2 * Pow2(1);
    assert Pow2(3) == 2 * Pow2(2);
    assert Pow2(4) == 2 * Pow2(3);
    assert Pow2(5) == 2 * Pow2(4);
    assert Pow2(6) == 2 * Pow2(5);
    assert Pow2(7) == 2 * Pow2(6);
    assert Pow2(8) == 2 * Pow2(7);
    if k > 8 {
      Pow2Bytes(k - 1);
    }
  }

  /** The low byte does not matter above it. */
  lemma {:induction false} DivideBytes(h: nat, x: nat, d: nat)
    requires x < 256 && d > 0
    ensures (h * 256 + x) / (256 * d) == h / d
  {
    var q := h / d;
    var r := h % d;
    assert h == q * d + r && r <= d - 1;
    assert q * (256 * d) == 256 * (q * d);
    Quotient(h * 256 + x, q, 256 * d);
  }

  /** Below the top of a byte, the bytes above it only shift the quotient. */
  lemma {:induction false} DivideWithin(h: nat, x: nat, b: nat)
    requires x < 256 && b <= 8
    ensures (h * 256 + x) / Pow(b) == h * (256 / Pow(b)) + x / Pow(b)
  {
    var d := Pow(b);
    assert d * (256 / d) == 256;
    var q, t := x / d, h * (256 / d);
    assert q * d <= x < q * d + d;
    assert t * d == h * 256 by { assert t * d == h * ((256 / d) * d); }
    assert (t + q) * d == t * d + q * d;
    Quotient(h * 256 + x, t + q, d);
  }

  lemma {:induction false} FlagStep(a: Address, b: Address)
    requires |a| == |b| > 0 && a != b
    ensures var k := |a| - 1;
            if a[..k] == b[..k] then a[k] != b[k] && BorderFlag(a, b) == TopBit(a[k], b[k]) + 1
            else BorderFlag(a, b) == BorderFlag(a[..k], b[..k]) + 8
  {
    var k := |a| - 1;
    assert a == a[..k] + [a[k]] && b == b[..k] + [b[k]];
    if a[..k] == b[..k] {
      FirstDifferenceUnique(a, b, k);
    } else {
      var p := FirstDifference(a[..k], b[..k]);
      assert a[..p] == a[..k][..p] && b[..p] == b[..k][..p];
      FirstDifferenceUnique(a, b, p);
    }
  }

  /** The flag counts the low bits up to the highest one in which the numbers differ. */
  lemma {:induction false} FlagMeans(a: Address, b: Address)
    requires |a| == |b| && a != b
    ensures var f := BorderFlag(a, b);
            f >= 1 && Value(a) / Pow2(f) == Value(b) / Pow2(f) && Value(a) / Pow2(f - 1) != Value(b) / Pow2(f - 1)
  {
    hide BorderFlag, TopBit, Pow, Pow2;
    var k, f := |a| - 1, BorderFlag(a, b);
    var x, y := Value(a[..k]), Value(b[..k]);
    FlagStep(a, b);
    Pow2Bytes(f);
    Pow2Bytes(f - 1);
    if a[..k] == b[..k] {
      DivideWithin(x, a[k] as nat, f);
      DivideWithin(x, b[k] as nat, f);
      DivideWithin(x, a[k] as nat, f - 1);
      DivideWithin(x, b[k] as nat, f - 1);
      BitsApart(a[k], b[k]);
    } else {
      FlagMeans(a[..k], b[..k]);
      DivideBytes(x, a[k] as nat, Pow2(f - 8));
      DivideBytes(y, b[k] as nat, Pow2(f - 8));
      DivideBytes(x, a[k] as nat, Pow2(f - 9));
      DivideBytes(y, b[k] as nat, Pow2(f - 9));
    }
  }

  lemma {:induction false} BitsApart(x: Byte, y: Byte)
    requires x != y
    ensures var b := TopBit(x, y);
            x as nat / Pow(b + 1) == y as nat / Pow(b + 1) && x as nat / Pow(b) != y as nat / Pow(b)
  {
  }

  /** The cut keeps the bits from the flag on, sets the one below it and clears the rest. */
  lemma {:induction false} CutMeans(a: Address, f: nat)
    requires 1 <= f <= 8 * |a|
    ensures Value(Cut(a, f)) == Value(a) / Pow2(f) * Pow2(f) + Pow2(f - 1)
  {
    if f <= 8 {
      CutLow(a, f);
    } else {
      CutMeans(a[..|a| - 1], f - 8);
      CutHigh(a, f);
    }
  }

  lemma {:induction false} CutLow(a: Address, f: nat)
    requires 1 <= f <= 8 && |a| > 0
    ensures Value(Cut(a, f)) == Value(a) / Pow2(f) * Pow2(f) + Pow2(f - 1)
  {
    hide Pow, Pow2, CutByte;
    var k := |a| - 1;
    var h, x := Value(a[..k]), a[k] as nat;
    Pow2Bytes(f);
    Pow2Bytes(f - 1);
    assert Cut(a, f) == a[..k] + [CutByte(a[k], f - 1)];
    assert Cut(a, f)[..k] == a[..k];
    CutByteMeans(a[k], f - 1);
    DivideWithin(h, x, f);
    WholeBytes(h, f, x / Pow(f));
  }

  lemma {:induction false} CutHigh(a: Address, f: nat)
    requires 8 < f <= 8 * |a|
    requires var front := a[..|a| - 1];
             Value(Cut(front, f - 8)) == Value(front) / Pow2(f - 8) * Pow2(f - 8) + Pow2(f - 9)
    ensures Value(Cut(a, f)) == Value(a) / Pow2(f) * Pow2(f) + Pow2(f - 1)
  {
    hide Pow, Pow2;
    CutFront(a, f);
    hide Cut;
    var k := |a| - 1;
    Pow2Bytes(f);
    Pow2Bytes(f - 1);
    var h, d := Value(a[..k]), Pow2(f - 8);
    DivideBytes(h, a[k] as nat, d);
    WholeCut(h / d, d);
  }

  lemma {:induction false} WholeCut(q: nat, d: nat)
    ensures q * (256 * d) == (q * d) * 256
  {
  }

  lemma {:induction false} CutFront(a: Address, f: nat)
    requires 8 < f <= 8 * |a|
    ensures var k, c := |a| - 1, Cut(a, f); c[..k] == Cut(a[..k], f - 8) && c[k] == 0
  {
    hide CutByte;
    var k := |a| - 1;
    var p := |a| - (f - 1) / 8 - 1;
    assert p == k - (f - 8 - 1) / 8 - 1 && (f - 8 - 1) % 8 == (f - 1) % 8;
    assert a[..k][..p] == a[..p];
  }

  lemma {:induction false} CutByteMeans(x: Byte, b: nat)
    requires b < 8
    ensures CutByte(x, b) as nat == x as nat / Pow(b + 1) * Pow(b + 1) + Pow(b)
  {
  }

  lemma {:induction false} WholeBytes(h: nat, f: nat, q: nat)
    requires 1 <= f <= 8
    ensures (h * (256 / Pow(f)) + q) * Pow(f) == h * 256 + q * Pow(f)
  {
    var d := Pow(f);
    assert (256 / d) * d == 256;
    assert h * (256 / d) * d == h * ((256 / d) * d);
  }

  // ---- Byte order is a total order --------------------------------------------------------------------

  lemma {:induction false} LessTransitive(a: Address, b: Address, c: Address)
    requires |a| == |b| == |c| && Less(a, b) && Less(b, c)
    ensures Less(a, c)
  {
    if a[0] == b[0] && b[0] == c[0] {
      LessTransitive(a[1..], b[1..], c[1..]);
    }
  }

  lemma {:induction false} AtMostLess(a: Address, b: Address, c: Address)
    requires |a| == |b| == |c|
    ensures AtMost(a, b) && Less(b, c) ==> Less(a, c)
    ensures Less(a, b) && AtMost(b, c) ==> Less(a, c)
    ensures AtMost(a, b) && AtMost(b, c) ==> AtMost(a, c)
  {
    if Less(a, b) && Less(b, c) { LessTransitive(a, b, c); }
  }

  lemma {:induction false} ZerosLeast(a: Address)
    ensures AtMost(Zeros(|a|), a)
  {
    AtMostAt(Zeros(|a|), a, 0);
  }

  lemma {:induction false} OnesGreatest(a: Address)
    requires a != Ones(|a|)
    ensures Less(a, Ones(|a|))
  {
    LessOrGreater(a, Ones(|a|));
  }
}

/** Building and fragmenting LQ_TC messages. */
module LqTc {
  import opened Prelude
  import opened NetBuffer
  import opened Border

  datatype Neighbor = Neighbor(address: Address, lq: seq<Byte>)

  /** Addresses of n bytes, four bytes of link quality each. */
  ghost predicate Shaped(list: seq<Neighbor>, n: nat) {
    forall i :: 0 <= i < |list| ==> |list[i].address| == n && |list[i].lq| == 4
  }

  ghost predicate Ascending(list: seq<Neighbor>, n: nat)
    requires Shaped(list, n)
  {
    forall i, j :: 0 <= i < j < |list| ==> Less(list[i].address, list[j].address)
  }

  ghost predicate AscendingBy(list: seq<Neighbor>, less: (Address, Address) -> bool) {
    forall i, j :: 0 <= i < j < |list| ==> less(list[i].address, list[j].address)
  }

  /** avl_comp_default(a, b) < 0 is a total order of the addresses of n bytes. */
  ghost predicate TotalOrder(less: (Address, Address) -> bool, n: nat) {
    && (forall a, b :: |a| == |b| == n ==> (less(a, b) <==> a != b && !less(b, a)))
    && (forall a, b, c :: |a| == |b| == |c| == n && less(a, b) && less(b, c) ==> less(a, c))
  }

  /** avl_comp_ipv6, and avl_comp_ipv4 on a big-endian host. */
  predicate ByteLess(a: Address, b: Address) {
    |a| == |b| && Less(a, b)
  }

  /** avl_comp_ipv4 on a little-endian host. */
  predicate HostLess(a: Address, b: Address) {
    |a| == |b| == 4 && HostOrder(a) < HostOrder(b)
  }

  lemma {:induction false} OrdersAreTotal(n: nat)
    ensures TotalOrder(ByteLess, n) && TotalOrder(HostLess, 4)
  {
    forall a: Address, b: Address | |a| == |b| == n ensures ByteLess(a, b) <==> a != b && !ByteLess(b, a) {
      if a == b {
        NotLessThanItself(a);
      } else {
        LessOrGreater(a, b);
      }
    }
    forall a: Address, b: Address, c: Address | |a| == |b| == |c| == n && ByteLess(a, b) && ByteLess(b, c)
      ensures ByteLess(a, c)
    {
      LessTransitive(a, b, c);
    }
    forall a: Address, b: Address | |a| == |b| == 4 ensures HostLess(a, b) <==> a != b && !HostLess(b, a) {
      HostOrderTellsApart(a, b);
    }
  }

  lemma {:induction false} HostOrderTellsApart(a: Address, b: Address)
    requires |a| == |b| == 4
    ensures HostOrder(a) == HostOrder(b) <==> a == b
  {
  }

  ghost predicate Sorted(list: seq<Neighbor>, less: (Address, Address) -> bool) {
    forall i, j :: 0 <= i < j < |list| ==> !less(list[j].address, list[i].address)
  }

  ghost predicate DistinctAddresses(list: seq<Neighbor>) {
    forall i, j :: 0 <= i < j < |list| ==> list[i].address != list[j].address
  }

  // ---- create_lq_tc: the sorted queue -------------------------------------------------------------------

  /** The queueing step of create_lq_tc in the host's order: before the first greater address. */
  method SortedInsert(list: seq<Neighbor>, x: Neighbor, less: (Address, Address) -> bool, n: nat)
    returns (r: seq<Neighbor>)
    requires Shaped(list, n) && |x.address| == n && |x.lq| == 4 && TotalOrder(less, n) && Sorted(list, less)
    ensures Shaped(r, n) && Sorted(r, less)
    ensures exists k :: 0 <= k <= |list| && r == list[..k] + [x] + list[k..]
    ensures DistinctAddresses(r) ==> AscendingBy(r, less)
  {
    var k := 0;
    while k < |list| && !less(x.address, list[k].address)
      invariant k <= |list|
      invariant forall i :: 0 <= i < k ==> !less(x.address, list[i].address)
    {
      k := k + 1;
    }
    r := list[..k] + [x] + list[k..];
    InsertSorted(list, x, less, n, k);
  }

  lemma {:induction false} InsertSorted(list: seq<Neighbor>, x: Neighbor, less: (Address, Address) -> bool, n: nat,
                                        k: nat)
    requires Shaped(list, n) && |x.address| == n && TotalOrder(less, n) && Sorted(list, less) && k <= |list|
    requires forall i :: 0 <= i < k ==> !less(x.address, list[i].address)
    requires k < |list| ==> less(x.address, list[k].address)
    ensures Sorted(list[..k] + [x] + list[k..], less)
  {
    var r := list[..k] + [x] + list[k..];
    forall i, j | 0 <= i < j < |r| ensures !less(r[j].address, r[i].address) {
      if i == k {
        assert r[j] == list[j - 1];
      }
    }
  }

  // ---- The wire format ------------------------------------------------------------------------------------

  function EncodeEntries(list: seq<Neighbor>): seq<Byte> {
    if list == [] then [] else EncodeEntries(list[..|list| - 1]) + list[|list| - 1].address + list[|list| - 1].lq
  }

  /** The fields of the message and LQ_TC headers other than sizes and borders. */
  datatype Meta = Meta(vtime: Byte, orig: Address, ttl: Byte, ansn: nat)

  /** One message: its borders and the neighbours it carries. */
  datatype Fragment = Fragment(lower: Byte, upper: Byte, entries: seq<Neighbor>)

  /** The bytes of a fragment; the OLSR and LQ_TC headers take 12 bytes and an address. */
  function Encode(meta: Meta, seqno: nat, f: Fragment): seq<Byte>
    requires meta.ansn < 0x1_0000 && seqno < 0x1_0000
    requires |EncodeEntries(f.entries)| + |meta.orig| + 12 < 0x1_0000
  {
    [202, meta.vtime] + U16(|EncodeEntries(f.entries)| + |meta.orig| + 12) + meta.orig + [meta.ttl, 0] + U16(seqno)
    + U16(meta.ansn) + [f.lower, f.upper] + EncodeEntries(f.entries)
  }

  /** The entry loop of olsr_input_tc on n-byte addresses; an entry cut short by the end fails. */
  function ReadEntries(bytes: seq<Byte>, n: nat): Option<seq<Neighbor>> {
    if bytes == [] then Some([])
    else if |bytes| < n + 4 then None
    else
      var rest := ReadEntries(bytes[n + 4..], n);
      if rest.None? then None else Some([Neighbor(bytes[..n], bytes[n..n + 4])] + rest.value)
  }

  /** What olsr_input_tc takes from a message: the border bytes, and the entries up to the size it states. */
  function Read(msg: seq<Byte>, n: nat): Option<Fragment> {
    if |msg| < n + 12 || msg[0] != 202 then None
    else
      var size := 256 * (msg[2] as int) + msg[3] as int;
      if size > |msg| then None
      else
        var entries := ReadEntries(if size <= n + 12 then [] else msg[n + 12..size], n);
        if entries.None? then None else Some(Fragment(msg[n + 10], msg[n + 11], entries.value))
  }

  lemma {:induction false} EntriesRoundTrip(list: seq<Neighbor>, n: nat)
    requires Shaped(list, n)
    ensures ReadEntries(EncodeEntries(list), n) == Some(list)
  {
    if list != [] {
      var k := |list| - 1;
      EntriesRoundTrip(list[..k], n);
      hide Shaped;
      ReadLast(EncodeEntries(list[..k]), list[k], n);
      assert list == list[..k] + [list[k]];
    }
  }

  /** An entry behind a readable sequence is read last. */
  lemma {:induction false} ReadLast(front: seq<Byte>, x: Neighbor, n: nat)
    requires |x.address| == n && |x.lq| == 4 && ReadEntries(front, n).Some?
    ensures ReadEntries(front + x.address + x.lq, n) == Some(ReadEntries(front, n).value + [x])
    decreases |front|
  {
    var bytes := front + x.address + x.lq;
    if front == [] {
      assert bytes[..n] == x.address && bytes[n..n + 4] == x.lq && bytes[n + 4..] == [];
      assert [x] + [] == [] + [x];
    } else {
      ReadLast(front[n + 4..], x, n);
      assert bytes[n + 4..] == front[n + 4..] + x.address + x.lq;
      assert bytes[..n] == front[..n] && bytes[n..n + 4] == front[n..n + 4];
      var first, rest := [Neighbor(front[..n], front[n..n + 4])], ReadEntries(front[n + 4..], n).value;
      assert first + (rest + [x]) == first + rest + [x];
    }
  }

  /** A receiver reads back the borders and the neighbours that were written. */
  lemma {:induction false} FragmentRoundTrip(meta: Meta, seqno: nat, f: Fragment, n: nat)
    requires meta.ansn < 0x1_0000 && seqno < 0x1_0000 && |meta.orig| == n && Shaped(f.entries, n)
    requires |EncodeEntries(f.entries)| + n + 12 < 0x1_0000
    ensures |Encode(meta, seqno, f)| == n + 12 + |EncodeEntries(f.entries)|
    ensures Read(Encode(meta, seqno, f), n) == Some(f)
  {
    hide ReadEntries, Shaped, EncodeEntries;
    EntriesRoundTrip(f.entries, n);
    MessageLayout(meta, seqno, f);
  }

  /** Where the fields of a message stand. */
  lemma {:induction false} MessageLayout(meta: Meta, seqno: nat, f: Fragment)
    requires meta.ansn < 0x1_0000 && seqno < 0x1_0000 && |EncodeEntries(f.entries)| + |meta.orig| + 12 < 0x1_0000
    ensures var msg, n, body := Encode(meta, seqno, f), |meta.orig|, EncodeEntries(f.entries);
            && |msg| == n + 12 + |body| == 256 * (msg[2] as int) + msg[3] as int
            && msg[0] == 202 && msg[1] == meta.vtime && msg[4..n + 4] == meta.orig
            && msg[n + 4] == meta.ttl && msg[n + 5] == 0
            && 256 * (msg[n + 6] as int) + msg[n + 7] as int == seqno
            && 256 * (msg[n + 8] as int) + msg[n + 9] as int == meta.ansn
            && msg[n + 10] == f.lower && msg[n + 11] == f.upper
            && msg[n + 12..|msg|] == body && (body == [] <==> |msg| <= n + 12)
  {
    hide EncodeEntries;
    var size := |EncodeEntries(f.entries)| + |meta.orig| + 12;
    assert 256 * (size / 256) + size % 256 == size;
  }

  // ---- Fragmentation ----------------------------------------------------------------------------------------

  ghost function Entries(frags: seq<Fragment>): seq<Neighbor> {
    if frags == [] then [] else Entries(frags[..|frags| - 1]) + frags[|frags| - 1].entries
  }

  lemma {:induction false} EntriesAppend(frags: seq<Fragment>, f: Fragment)
    ensures Entries(frags + [f]) == Entries(frags) + f.entries
  {
    assert (frags + [f])[..|frags|] == frags;
  }

  ghost function Last(list: seq<Neighbor>): Neighbor
    requires list != []
  {
    list[|list| - 1]
  }

  /** The border between two adjacent fragments: one flag, computed from the addresses on both sides of it. */
  ghost predicate Borders(f: Fragment, g: Fragment, n: nat)
  {
    && f.entries != [] && g.entries != [] && Shaped(f.entries, n) && Shaped(g.entries, n)
    && f.upper as nat == BorderFlag(Last(f.entries).address, g.entries[0].address) == g.lower as nat
  }

  /** What serialize_lq_tc leaves behind: all neighbours in order, open ends, matching borders in between. */
  ghost predicate Fragmented(frags: seq<Fragment>, list: seq<Neighbor>, n: nat) {
    && frags != [] && Entries(frags) == list
    && frags[0].lower == 0xff && frags[|frags| - 1].upper == 0xff
    && (forall k :: 0 <= k < |frags| - 1 ==> Borders(frags[k], frags[k + 1], n))
  }

  /** No fragment but the last could have taken one more neighbour. */
  ghost predicate Filled(frags: seq<Fragment>, room: int, n: nat) {
    forall k :: 0 <= k < |frags| - 1 ==> |EncodeEntries(frags[k].entries)| + (n + 4) > room - (n + 12)
  }

  /** The same of all fragments so far. */
  ghost predicate AllFilled(frags: seq<Fragment>, room: int, n: nat) {
    forall k :: 0 <= k < |frags| ==> |EncodeEntries(frags[k].entries)| + (n + 4) > room - (n + 12)
  }

  lemma {:induction false} FilledAppend(frags: seq<Fragment>, f: Fragment, room: int, n: nat)
    requires AllFilled(frags, room, n)
    ensures Filled(frags + [f], room, n)
    ensures |EncodeEntries(f.entries)| + (n + 4) > room - (n + 12) ==> AllFilled(frags + [f], room, n)
  {
  }

  /** Fragments done so far, and the neighbours in the work buffer that will open the next one. */
  ghost predicate Partial(frags: seq<Fragment>, left: Byte, cur: seq<Neighbor>, list: seq<Neighbor>, n: nat) {
    && Entries(frags) + cur == list
    && (frags == [] ==> left == 0xff)
    && (frags != [] ==> frags[0].lower == 0xff && Borders(frags[|frags| - 1], Fragment(left, 0, cur), n))
    && (forall k :: 0 <= k < |frags| - 1 ==> Borders(frags[k], frags[k + 1], n))
  }

  ghost predicate Small(frags: seq<Fragment>, n: nat) {
    forall k :: 0 <= k < |frags| ==> |EncodeEntries(frags[k].entries)| + n + 12 <= MAX_REMAINING
  }

  /** The fragments as messages with consecutive sequence numbers. */
  ghost function Messages(meta: Meta, seqno: nat, frags: seq<Fragment>): seq<seq<Byte>>
    requires meta.ansn < 0x1_0000 && Small(frags, |meta.orig|)
  {
    if frags == [] then []
    else
      var k := |frags| - 1;
      Messages(meta, seqno, frags[..k]) + [Encode(meta, (seqno + k) % 0x1_0000, frags[k])]
  }

  lemma {:induction false} MessagesAppend(meta: Meta, seqno: nat, frags: seq<Fragment>, f: Fragment)
    requires meta.ansn < 0x1_0000 && Small(frags, |meta.orig|)
    requires |EncodeEntries(f.entries)| + |meta.orig| + 12 <= MAX_REMAINING
    ensures Small(frags + [f], |meta.orig|)
    ensures Messages(meta, seqno, frags + [f]) ==
              Messages(meta, seqno, frags) + [Encode(meta, (seqno + |frags|) % 0x1_0000, f)]
  {
    assert (frags + [f])[..|frags|] == frags;
  }

  lemma {:induction false} PrefixIsShorter(list: seq<Neighbor>, k: nat)
    requires k <= |list|
    ensures |EncodeEntries(list[..k])| <= |EncodeEntries(list)|
  {
    if k < |list| {
      PrefixIsShorter(list[..|list| - 1], k);
      assert list[..|list| - 1][..k] == list[..k];
    } else {
      assert list[..k] == list;
    }
  }

  lemma {:induction false} EncodeAppend(list: seq<Neighbor>, x: Neighbor)
    ensures EncodeEntries(list + [x]) == EncodeEntries(list) + x.address + x.lq
  {
    assert (list + [x])[..|list|] == list;
  }

  /** Closing a fragment before neighbour x. */
  lemma {:induction false} BreakKeepsPartial(frags: seq<Fragment>, left: Byte, cur: seq<Neighbor>,
                                             list: seq<Neighbor>, x: Neighbor, flag: Byte, n: nat)
    requires Partial(frags, left, cur, list, n) && cur != [] && Shaped(cur, n) && |x.address| == n && |x.lq| == 4
    requires flag as nat == BorderFlag(Last(cur).address, x.address)
    ensures Partial(frags + [Fragment(left, flag, cur)], flag, [x], list + [x], n)
  {
    var f := Fragment(left, flag, cur);
    EntriesAppend(frags, f);
    var all := frags + [f];
    assert Borders(f, Fragment(flag, 0, [x]), n);
    forall k | 0 <= k < |all| - 1 ensures Borders(all[k], all[k + 1], n) {
      if k < |frags| - 1 {
        assert Borders(frags[k], frags[k + 1], n);
      }
    }
  }

  lemma {:induction false} GrowKeepsPartial(frags: seq<Fragment>, left: Byte, cur: seq<Neighbor>, list: seq<Neighbor>,
                                            x: Neighbor, n: nat)
    requires Partial(frags, left, cur, list, n) && |x.address| == n && |x.lq| == 4
    ensures Partial(frags, left, cur + [x], list + [x], n)
  {
    assert Entries(frags) + (cur + [x]) == (Entries(frags) + cur) + [x];
    if frags != [] {
      var f := frags[|frags| - 1];
      assert Borders(f, Fragment(left, 0, cur), n);
      assert Borders(f, Fragment(left, 0, cur + [x]), n);
    }
  }

  lemma {:induction false} EndIsFragmented(frags: seq<Fragment>, left: Byte, cur: seq<Neighbor>, list: seq<Neighbor>,
                                           n: nat)
    requires Partial(frags, left, cur, list, n)
    ensures Fragmented(frags + [Fragment(left, 0xff, cur)], list, n)
  {
    var f := Fragment(left, 0xff, cur);
    EntriesAppend(frags, f);
    var all := frags + [f];
    forall k | 0 <= k < |all| - 1 ensures Borders(all[k], all[k + 1], n) {
      if k < |frags| - 1 {
        assert Borders(frags[k], frags[k + 1], n);
      }
    }
  }

  /** serialize_common, the push and, for all but the last fragment, the output of the packet. */
  method Send(out: OutBuffer, meta: Meta, seqno: nat, f: Fragment)
    requires out.Valid() && meta.ansn < 0x1_0000 && seqno < 0x1_0000
    requires |EncodeEntries(f.entries)| + |meta.orig| + 12 <= out.BytesLeft()
    modifies out
    ensures out.Valid() && out.pushed == old(out.pushed) + [Encode(meta, seqno, f)]
    ensures out.packets == old(out.packets)
  {
    var msg := Encode(meta, seqno, f);
    var ok := out.Push(msg);
    assert ok;
  }

  /** What the flush decision guarantees: everything fits behind the pending bytes, or the buffer is empty. */
  ghost predicate Roomy(list: seq<Neighbor>, rem: int, maxsize: nat, n: nat) {
    rem >= 0 && (rem >= |EncodeEntries(list)| || (rem == EmptyRoom(maxsize) - (n + 12) && rem >= n + 4))
  }

  /** The first part of serialize_lq_tc: flush pending bytes when the whole message does not fit behind them. */
  method Prepare(out: OutBuffer, list: seq<Neighbor>, n: nat) returns (rem: int)
    requires out.Valid() && 2 * n + 16 <= EmptyRoom(out.maxsize)
    modifies out`pending, out`packets
    ensures out.Valid() && rem == out.BytesLeft() - (n + 12) && Roomy(list, rem, out.maxsize, n)
    ensures out.pending != [] ==> rem >= |EncodeEntries(list)|
    ensures |EncodeEntries(list)| + n + 12 <= old(out.BytesLeft()) ==>
              out.pending == old(out.pending) && out.packets == old(out.packets)
  {
    hide EncodeEntries;
    rem := out.BytesLeft() - (n + 12);
    var expected := if 0 < |out.pending| then |EncodeEntries(list)| else 0;
    if rem < expected {
      out.Output();
      rem := out.BytesLeft() - (n + 12);
    }
  }

  /** Close the fragment before neighbour x, send it and start over with an empty buffer. */
  method Break(out: OutBuffer, meta: Meta, seqno: nat, left: Byte, cur: seq<Neighbor>, x: Neighbor, n: nat)
    returns (f: Fragment, rem: int)
    requires out.Valid() && meta.ansn < 0x1_0000 && seqno < 0x1_0000 && |meta.orig| == n && n <= 16
    requires cur != [] && Shaped(cur, n) && |x.address| == n && |EncodeEntries(cur)| + n + 12 <= out.BytesLeft()
    modifies out
    ensures f.lower == left && f.entries == cur
    ensures out.Valid() && out.pushed == old(out.pushed) + [Encode(meta, seqno, f)]
    ensures f.upper as nat == BorderFlag(Last(cur).address, x.address)
    ensures out.pending == [] && rem == out.BytesLeft() - (n + 12)
  {
    hide Encode, EncodeEntries, BorderFlag;
    var flag := CalculateBorderFlag(cur[|cur| - 1].address, x.address);
    FlagFits(cur[|cur| - 1].address, x.address);
    f := Fragment(left, flag, cur);
    Send(out, meta, seqno, f);
    out.Output();
    rem := out.BytesLeft() - (n + 12);
  }

  lemma {:induction false} FlagFits(a: Address, b: Address)
    requires |a| == |b| <= 16
    ensures BorderFlag(a, b) <= 128
  {
  }

  /** All that the fragments written so far keep: order, borders, sizes, and that none was closed too early. */
  ghost predicate Progress(frags: seq<Fragment>, left: Byte, cur: seq<Neighbor>, done: seq<Neighbor>, room: int,
                           n: nat) {
    Partial(frags, left, cur, done, n) && Shaped(cur, n) && Small(frags, n) && AllFilled(frags, room, n)
    && (frags == [] ==> cur == done)
  }

  lemma {:induction false} ProgressBreaks(frags: seq<Fragment>, left: Byte, cur: seq<Neighbor>, done: seq<Neighbor>,
                                          x: Neighbor, f: Fragment, room: int, n: nat, meta: Meta, seqno: nat)
    requires Progress(frags, left, cur, done, room, n) && cur != [] && |x.address| == n && |x.lq| == 4
    requires f == Fragment(left, f.upper, cur) && f.upper as nat == BorderFlag(Last(cur).address, x.address)
    requires |EncodeEntries(cur)| + (n + 4) > room - (n + 12) && |EncodeEntries(cur)| + n + 12 <= MAX_REMAINING
    requires meta.ansn < 0x1_0000 && |meta.orig| == n
    ensures Progress(frags + [f], f.upper, [x], done + [x], room, n)
    ensures Small(frags, n) && Small(frags + [f], n)
    ensures Messages(meta, seqno, frags + [f]) ==
              Messages(meta, seqno, frags) + [Encode(meta, (seqno + |frags|) % 0x1_0000, f)]
    ensures |EncodeEntries([x])| == n + 4
  {
    hide Partial, Encode, BorderFlag, EncodeEntries, Messages, AllFilled;
    BreakKeepsPartial(frags, left, cur, done, x, f.upper, n);
    MessagesAppend(meta, seqno, frags, f);
    FilledAppend(frags, f, room, n);
    EncodeOne(x);
  }

  lemma {:induction false} ProgressGrows(frags: seq<Fragment>, left: Byte, cur: seq<Neighbor>, done: seq<Neighbor>,
                                         x: Neighbor, room: int, n: nat)
    requires Progress(frags, left, cur, done, room, n) && |x.address| == n && |x.lq| == 4
    ensures Progress(frags, left, cur + [x], done + [x], room, n)
    ensures |EncodeEntries(cur + [x])| == |EncodeEntries(cur)| + n + 4
  {
    hide Partial, EncodeEntries, AllFilled, Small;
    GrowKeepsPartial(frags, left, cur, done, x, n);
    EncodeAppend(cur, x);
  }

  lemma {:induction false} ProgressEnds(frags: seq<Fragment>, left: Byte, cur: seq<Neighbor>, list: seq<Neighbor>,
                                        room: int, n: nat, meta: Meta, seqno: nat)
    requires Progress(frags, left, cur, list, room, n) && |EncodeEntries(cur)| + n + 12 <= MAX_REMAINING
    requires meta.ansn < 0x1_0000 && |meta.orig| == n
    ensures var f := Fragment(left, 0xff, cur);
            && Fragmented(frags + [f], list, n) && Filled(frags + [f], room, n)
            && Small(frags, n) && Small(frags + [f], n)
            && Messages(meta, seqno, frags + [f]) ==
               Messages(meta, seqno, frags) + [Encode(meta, (seqno + |frags|) % 0x1_0000, f)]
  {
    hide Partial, Fragmented, Encode, EncodeEntries, Messages, AllFilled, Filled;
    var f := Fragment(left, 0xff, cur);
    EndIsFragmented(frags, left, cur, list, n);
    MessagesAppend(meta, seqno, frags, f);
    FilledAppend(frags, f, room, n);
  }

  lemma {:induction false} ProgressFacts(frags: seq<Fragment>, left: Byte, cur: seq<Neighbor>, done: seq<Neighbor>,
                                         room: int, n: nat)
    requires Progress(frags, left, cur, done, room, n)
    ensures Shaped(cur, n) && Small(frags, n) && (frags == [] ==> cur == done)
  {
  }

  /** serialize_lq_tc */
  method Serialize(out: OutBuffer, meta: Meta, seqno: nat, list: seq<Neighbor>, n: nat) returns (frags: seq<Fragment>)
    requires out.Valid() && Shaped(list, n) && |meta.orig| == n && meta.ansn < 0x1_0000
    requires n <= 16 && 2 * n + 16 <= EmptyRoom(out.maxsize)
    modifies out
    ensures out.Valid()
    ensures Fragmented(frags, list, n)
    ensures Small(frags, n) && out.pushed == old(out.pushed) + Messages(meta, seqno, frags)
    ensures |EncodeEntries(list)| + n + 12 <= EmptyRoom(out.maxsize) ==> |frags| == 1
    ensures Filled(frags, EmptyRoom(out.maxsize), n)
    ensures |EncodeEntries(list)| + n + 12 <= old(out.BytesLeft()) ==> out.packets == old(out.packets)
  {
    hide Progress, Fragmented, Encode, BorderFlag, EncodeEntries, Messages, Small, Roomy, Filled;
    EncodeNone();
    ghost var room := EmptyRoom(out.maxsize);
    StartsProgress(meta, seqno, room, n);
    var rem := Prepare(out, list, n);
    RoomFacts(list, rem, out.maxsize, n);
    ghost var prepared := out.packets;
    frags := [];
    var left: Byte := 0xff;
    var cur := [];
    for k := 0 to |list|
      invariant Progress(frags, left, cur, list[..k], room, n) && Small(frags, n)
      invariant out.Valid() && rem == out.BytesLeft() - (n + 12) && Roomy(list, rem, out.maxsize, n)
      invariant |EncodeEntries(cur)| <= rem
      invariant cur == [] ==> k == 0
      invariant out.pushed == old(out.pushed) + Messages(meta, seqno, frags)
      invariant frags != [] ==> rem == room - (n + 12) < |EncodeEntries(list)|
      invariant frags == [] ==> out.packets == prepared
    {
      var x := list[k];
      assert list[..k + 1] == list[..k] + [x];
      RoomFacts(list, rem, out.maxsize, n);
      ProgressFacts(frags, left, cur, list[..k], room, n);
      if |EncodeEntries(cur)| + (n + 4) > rem {
        BreakNeedsEntries(list, k, cur, x, frags, rem, n);
        var f;
        f, rem := Break(out, meta, (seqno + |frags|) % 0x1_0000, left, cur, x, n);
        ProgressBreaks(frags, left, cur, list[..k], x, f, room, n, meta, seqno);
        EmptyIsRoomy(list, rem, out.maxsize, n);
        frags, left, cur := frags + [f], f.upper, [x];
      } else {
        ProgressGrows(frags, left, cur, list[..k], x, room, n);
        cur := cur + [x];
      }
    }
    assert list[..|list|] == list;
    ProgressEnds(frags, left, cur, list, room, n, meta, seqno);
    var f := Fragment(left, 0xff, cur);
    Send(out, meta, (seqno + |frags|) % 0x1_0000, f);
    frags := frags + [f];
  }

  lemma {:induction false} RoomFacts(list: seq<Neighbor>, rem: int, maxsize: nat, n: nat)
    requires Roomy(list, rem, maxsize, n)
    ensures rem >= 0 && (rem >= |EncodeEntries(list)| || (rem == EmptyRoom(maxsize) - (n + 12) && rem >= n + 4))
  {
  }

  lemma {:induction false} EmptyIsRoomy(list: seq<Neighbor>, rem: int, maxsize: nat, n: nat)
    requires rem == EmptyRoom(maxsize) - (n + 12) && 2 * n + 16 <= EmptyRoom(maxsize)
    ensures Roomy(list, rem, maxsize, n)
  {
  }

  lemma {:induction false} StartsProgress(meta: Meta, seqno: nat, room: int, n: nat)
    requires meta.ansn < 0x1_0000 && |meta.orig| == n
    ensures Progress([], 0xff, [], [], room, n) && Small([], n) && Messages(meta, seqno, []) == []
  {
  }

  /** The break test can only fire behind at least one entry, and never when all neighbours fit. */
  lemma {:induction false} BreakNeedsEntries(list: seq<Neighbor>, k: nat, cur: seq<Neighbor>, x: Neighbor,
                                             frags: seq<Fragment>, rem: int, n: nat)
    requires k < |list| && x == list[k] && Shaped(list, n)
    requires rem >= |EncodeEntries(list)| || rem >= n + 4
    requires |EncodeEntries(cur)| + (n + 4) > rem
    requires cur == [] ==> k == 0
    requires frags == [] ==> cur == list[..k]
    ensures cur != []
    ensures frags == [] ==> |EncodeEntries(list)| > rem
  {
    hide EncodeEntries;
    PrefixIsShorter(list, k + 1);
    assert list[..k + 1] == list[..k] + [x];
    EncodeAppend(list[..k], x);
    assert k == 0 ==> list[..k] == [];
    EncodeNone();
  }

  lemma {:induction false} EncodeOne(x: Neighbor)
    ensures EncodeEntries([x]) == x.address + x.lq
  {
    EncodeAppend([], x);
    assert [] + [x] == [x];
  }

  lemma {:induction false} EncodeNone()
    ensures EncodeEntries([]) == []
  {
  }

  /** Every message is read back as the fragment it was made from. */
  lemma {:induction false} MessagesReadBack(meta: Meta, seqno: nat, frags: seq<Fragment>, k: nat)
    requires meta.ansn < 0x1_0000 && Small(frags, |meta.orig|) && k < |frags|
    requires forall i :: 0 <= i < |frags| ==> Shaped(frags[i].entries, |meta.orig|)
    ensures |Messages(meta, seqno, frags)| == |frags|
    ensures Read(Messages(meta, seqno, frags)[k], |meta.orig|) == Some(frags[k])
  {
    hide Encode, Read, EncodeEntries, Shaped;
    var m := |frags| - 1;
    MessagesCount(meta, seqno, frags[..m]);
    if k < m {
      MessagesReadBack(meta, seqno, frags[..m], k);
    } else {
      FragmentRoundTrip(meta, (seqno + m) % 0x1_0000, frags[m], |meta.orig|);
    }
  }

  lemma {:induction false} MessagesCount(meta: Meta, seqno: nat, frags: seq<Fragment>)
    requires meta.ansn < 0x1_0000 && Small(frags, |meta.orig|)
    ensures |Messages(meta, seqno, frags)| == |frags|
  {
    hide Encode, EncodeEntries;
    if frags != [] { MessagesCount(meta, seqno, frags[..|frags| - 1]); }
  }
}

/** The intervals of the address space that the fragments of one LQ_TC claim. */
module TcIntervals {
  import opened Border
  import opened LqTc

  /** The borders of a fragment can be rebuilt by its receiver. */
  ghost predicate Framed(f: Fragment, n: nat) {
    && Shaped(f.entries, n)
    && (f.lower != 0xff ==> f.entries != [] && 1 <= f.lower <= 8 * n)
    && (f.upper != 0xff ==> f.entries != [] && 1 <= f.upper <= 8 * n)
  }

  /** The lower border address of olsr_input_tc: the flag applied to the first address of the message. */
  ghost function LowCut(f: Fragment, n: nat): (c: Address)
    requires Framed(f, n)
    ensures |c| == n
  {
    if f.lower == 0xff then Zeros(n) else Cut(f.entries[0].address, f.lower)
  }

  /** The upper border address: the flag applied to the last address. */
  ghost function HighCut(f: Fragment, n: nat): (c: Address)
    requires Framed(f, n)
    ensures |c| == n
  {
    if f.upper == 0xff then Ones(n) else Cut(Last(f.entries).address, f.upper)
  }

  /** The edges that olsr_delete_revoked_tc_edges considers: at or above the lower border, below the upper. */
  ghost predicate Claims(f: Fragment, x: Address, n: nat)
    requires Framed(f, n) && |x| == n
  {
    AtMost(LowCut(f, n), x) && Less(x, HighCut(f, n))
  }

  ghost predicate Tiles(frags: seq<Fragment>, n: nat) {
    && frags != [] && (forall k :: 0 <= k < |frags| ==> Framed(frags[k], n))
    && LowCut(frags[0], n) == Zeros(n) && HighCut(frags[|frags| - 1], n) == Ones(n)
    && (forall k :: 0 <= k < |frags| - 1 ==> HighCut(frags[k], n) == LowCut(frags[k + 1], n))
    && (forall k :: 0 <= k < |frags| ==> AtMost(LowCut(frags[k], n), HighCut(frags[k], n)))
  }

  /** Pieces of an ascending list: each ascends, and each stays below the next. */
  ghost predicate Pieces(frags: seq<Fragment>, n: nat) {
    && (forall k :: 0 <= k < |frags| ==> Shaped(frags[k].entries, n) && Ascending(frags[k].entries, n))
    && (forall k :: 0 <= k < |frags| - 1 && frags[k].entries != [] && frags[k + 1].entries != [] ==>
          Less(Last(frags[k].entries).address, frags[k + 1].entries[0].address))
  }

  ghost predicate PiecesBy(frags: seq<Fragment>, less: (Address, Address) -> bool) {
    && (forall k :: 0 <= k < |frags| ==> AscendingBy(frags[k].entries, less))
    && (forall k :: 0 <= k < |frags| - 1 && frags[k].entries != [] && frags[k + 1].entries != [] ==>
          less(Last(frags[k].entries).address, frags[k + 1].entries[0].address))
  }

  lemma {:induction false} PiecesOf(frags: seq<Fragment>, less: (Address, Address) -> bool)
    requires AscendingBy(Entries(frags), less)
    ensures PiecesBy(frags, less)
  {
    if frags != [] {
      var m := |frags| - 1;
      var front, e := Entries(frags[..m]), frags[m].entries;
      assert Entries(frags) == front + e;
      assert forall i :: 0 <= i < |e| ==> e[i] == Entries(frags)[|front| + i];
      assert forall i :: 0 <= i < |front| ==> front[i] == Entries(frags)[i];
      PiecesOf(frags[..m], less);
      forall k | 0 <= k < m && frags[k].entries != [] && frags[k + 1].entries != []
        ensures less(Last(frags[k].entries).address, frags[k + 1].entries[0].address)
      {
        if k + 1 < m {
          assert frags[..m][k] == frags[k] && frags[..m][k + 1] == frags[k + 1];
        } else {
          var j := m - 1;
          assert frags[..m][..j] == frags[..j] && frags[..m][j] == frags[j];
          assert front == Entries(frags[..j]) + frags[j].entries;
          assert Last(frags[j].entries) == front[|front| - 1];
        }
      }
      forall k | 0 <= k < |frags| ensures AscendingBy(frags[k].entries, less) {
        if k < m { assert frags[..m][k] == frags[k]; }
      }
    }
  }

  lemma {:induction false} ShapedPieces(frags: seq<Fragment>, n: nat, k: nat)
    requires Shaped(Entries(frags), n) && k < |frags|
    ensures Shaped(frags[k].entries, n)
  {
    var m := |frags| - 1;
    var front, e := Entries(frags[..m]), frags[m].entries;
    assert forall i :: 0 <= i < |e| ==> e[i] == Entries(frags)[|front| + i];
    assert forall i :: 0 <= i < |front| ==> front[i] == Entries(frags)[i];
    if k < m {
      ShapedPieces(frags[..m], n, k);
    }
  }

  lemma {:induction false} AscendingPieces(frags: seq<Fragment>, n: nat)
    requires Shaped(Entries(frags), n) && Ascending(Entries(frags), n)
    ensures Pieces(frags, n)
  {
    hide Less;
    PiecesOf(frags, ByteLess);
    forall k | 0 <= k < |frags| ensures Shaped(frags[k].entries, n) {
      ShapedPieces(frags, n, k);
    }
    forall k, i, j | 0 <= k < |frags| && 0 <= i < j < |frags[k].entries|
      ensures ByteLess(frags[k].entries[i].address, frags[k].entries[j].address)
    {
      assert AscendingBy(frags[k].entries, ByteLess);
    }
  }

  /** One border: both sides rebuild the same cut, between their addresses. */
  lemma {:induction false} BorderAgrees(f: Fragment, g: Fragment, n: nat)
    requires n <= 16 && Borders(f, g, n) && Less(Last(f.entries).address, g.entries[0].address)
    ensures 1 <= f.upper <= 8 * n && f.upper == g.lower && f.upper != 0xff
    ensures Cut(Last(f.entries).address, f.upper) == Cut(g.entries[0].address, g.lower)
    ensures Less(Last(f.entries).address, Cut(Last(f.entries).address, f.upper))
    ensures AtMost(Cut(g.entries[0].address, g.lower), g.entries[0].address)
  {
    hide BorderFlag, Cut, Less;
    CutSeparates(Last(f.entries).address, g.entries[0].address);
    FlagPlace(Last(f.entries).address, g.entries[0].address);
  }

  /** Every neighbour lies inside the interval of its own fragment. */
  ghost predicate Inside(f: Fragment, n: nat)
    requires Framed(f, n)
  {
    forall i :: 0 <= i < |f.entries| ==>
      && AtMost(LowCut(f, n), f.entries[i].address)
      && (Less(f.entries[i].address, HighCut(f, n)) || f.entries[i].address == Ones(n))
  }

  lemma {:induction false} FragmentFramed(frags: seq<Fragment>, list: seq<Neighbor>, n: nat, k: nat)
    requires n <= 16 && Fragmented(frags, list, n) && Shaped(list, n) && Ascending(list, n) && k < |frags|
    ensures Framed(frags[k], n)
    ensures k > 0 ==> frags[k].entries != [] && AtMost(LowCut(frags[k], n), frags[k].entries[0].address)
    ensures k == 0 ==> LowCut(frags[k], n) == Zeros(n)
    ensures k < |frags| - 1 ==> frags[k].entries != [] && Less(Last(frags[k].entries).address, HighCut(frags[k], n))
    ensures k == |frags| - 1 ==> HighCut(frags[k], n) == Ones(n)
  {
    hide Less, Cut, BorderFlag;
    AscendingPieces(frags, n);
    if k > 0 {
      assert Borders(frags[k - 1], frags[k - 1 + 1], n);
      BorderAgrees(frags[k - 1], frags[k], n);
    }
    if k < |frags| - 1 {
      assert Borders(frags[k], frags[k + 1], n);
      BorderAgrees(frags[k], frags[k + 1], n);
    }
  }

  lemma {:induction false} FragmentInside(frags: seq<Fragment>, list: seq<Neighbor>, n: nat, k: nat)
    requires n <= 16 && Fragmented(frags, list, n) && Shaped(list, n) && Ascending(list, n) && k < |frags|
    ensures Framed(frags[k], n) && Inside(frags[k], n)
    ensures AtMost(LowCut(frags[k], n), HighCut(frags[k], n))
  {
    hide Less, Cut, BorderFlag, LowCut, HighCut, Fragmented;
    FragmentFramed(frags, list, n, k);
    FragmentedEntries(frags, list, n);
    AscendingPieces(frags, n);
    var f := frags[k];
    forall i | 0 <= i < |f.entries|
      ensures AtMost(LowCut(f, n), f.entries[i].address)
      ensures Less(f.entries[i].address, HighCut(f, n)) || f.entries[i].address == Ones(n)
    {
      var a := f.entries[i].address;
      if k == 0 { ZerosLeast(a); } else { AtMostLess(LowCut(f, n), f.entries[0].address, a); }
      if k == |frags| - 1 {
        if a != Ones(n) { OnesGreatest(a); }
      } else {
        AtMostLess(a, Last(f.entries).address, HighCut(f, n));
      }
    }
    if k == |frags| - 1 {
      if LowCut(f, n) != Ones(n) { OnesGreatest(LowCut(f, n)); }
    } else {
      AtMostLess(f.entries[0].address, Last(f.entries).address, HighCut(f, n));
      AtMostLess(LowCut(f, n), f.entries[0].address, HighCut(f, n));
    }
  }

  lemma {:induction false} FragmentedEntries(frags: seq<Fragment>, list: seq<Neighbor>, n: nat)
    requires Fragmented(frags, list, n)
    ensures Entries(frags) == list
  {
  }

  lemma {:induction false} FragmentsTile(frags: seq<Fragment>, list: seq<Neighbor>, n: nat)
    requires n <= 16 && Fragmented(frags, list, n) && Shaped(list, n) && Ascending(list, n)
    ensures Tiles(frags, n)
    ensures forall k :: 0 <= k < |frags| ==> Inside(frags[k], n)
  {
    hide Less, Cut, BorderFlag, Inside;
    AscendingPieces(frags, n);
    forall k | 0 <= k < |frags|
      ensures Framed(frags[k], n) && Inside(frags[k], n) && AtMost(LowCut(frags[k], n), HighCut(frags[k], n))
    {
      FragmentInside(frags, list, n, k);
    }
    forall k | 0 <= k < |frags| - 1 ensures HighCut(frags[k], n) == LowCut(frags[k + 1], n) {
      assert Borders(frags[k], frags[k + 1], n);
      BorderAgrees(frags[k], frags[k + 1], n);
    }
  }

  lemma {:induction false} SomeFragmentClaims(frags: seq<Fragment>, x: Address, n: nat, k: nat) returns (j: nat)
    requires Tiles(frags, n) && |x| == n && k < |frags| && Less(x, HighCut(frags[k], n))
    ensures j <= k && Claims(frags[j], x, n)
  {
    hide Less, LowCut, HighCut;
    var c := LowCut(frags[k], n);
    if k == 0 {
      ZerosLeast(x);
      j := 0;
    } else if c == x || Less(c, x) {
      j := k;
    } else {
      LessOrGreater(c, x);
      assert HighCut(frags[k - 1], n) == LowCut(frags[k - 1 + 1], n);
      j := SomeFragmentClaims(frags, x, n, k - 1);
    }
  }

  lemma {:induction false} CutsAscend(frags: seq<Fragment>, n: nat, i: nat, j: nat)
    requires Tiles(frags, n) && i < j < |frags|
    ensures AtMost(HighCut(frags[i], n), LowCut(frags[j], n))
  {
    hide Less, LowCut, HighCut;
    assert HighCut(frags[j - 1], n) == LowCut(frags[j - 1 + 1], n);
    if i < j - 1 {
      CutsAscend(frags, n, i, j - 1);
      AtMostLess(HighCut(frags[i], n), LowCut(frags[j - 1], n), LowCut(frags[j], n));
    }
  }

  /** The fragments divide the address space: every address but the all-ones one is claimed by exactly one of them. */
  lemma {:induction false} FragmentsPartition(frags: seq<Fragment>, list: seq<Neighbor>, n: nat, x: Address)
    requires n <= 16 && Fragmented(frags, list, n) && Shaped(list, n) && Ascending(list, n)
    requires |x| == n && x != Ones(n)
    ensures forall k :: 0 <= k < |frags| ==> Framed(frags[k], n)
    ensures exists k :: 0 <= k < |frags| && Claims(frags[k], x, n)
    ensures forall i, j :: 0 <= i < j < |frags| ==> !(Claims(frags[i], x, n) && Claims(frags[j], x, n))
  {
    hide Less, LowCut, HighCut, Fragmented, Inside;
    FragmentsTile(frags, list, n);
    OnesGreatest(x);
    var k := SomeFragmentClaims(frags, x, n, |frags| - 1);
    forall i, j | 0 <= i < j < |frags| ensures !(Claims(frags[i], x, n) && Claims(frags[j], x, n)) {
      CutsAscend(frags, n, i, j);
      AtMostLess(HighCut(frags[i], n), LowCut(frags[j], n), x);
      NotBoth(x, HighCut(frags[i], n));
    }
  }

  lemma {:induction false} NotBoth(x: Address, c: Address)
    requires |x| == |c|
    ensures !(Less(x, c) && AtMost(c, x))
  {
    if x == c { NotLessThanItself(x); } else { LessOrGreater(x, c); }
  }

  /** The all-ones address is outside every interval. */
  lemma {:induction false} AllOnesUnclaimed(f: Fragment, n: nat)
    requires Framed(f, n)
    ensures !Claims(f, Ones(n), n)
  {
    var c := HighCut(f, n);
    if c == Ones(n) {
      NotLessThanItself(c);
    } else {
      OnesGreatest(c);
      NotBoth(Ones(n), c);
    }
  }
}

/** The same intervals on a little-endian host, where IPv4 addresses are sorted and compared as host numbers. */
module HostIntervals {
  import opened NetBuffer
  import opened Border
  import opened LqTc
  import opened TcIntervals

  /** What serialize_lq_tc makes there of a list that create_lq_tc sorted. */
  ghost predicate HostFragmented(frags: seq<Fragment>, list: seq<Neighbor>) {
    Fragmented(frags, list, 4) && Shaped(list, 4) && AscendingBy(list, HostLess)
  }

  /** The last address before border k and the first one behind it. */
  ghost predicate Facing(frags: seq<Fragment>, k: nat, lower: Address, higher: Address) {
    && k + 1 < |frags| && frags[k].entries != [] && frags[k + 1].entries != []
    && lower == Last(frags[k].entries).address && higher == frags[k + 1].entries[0].address
    && |lower| == |higher| == 4 && HostOrder(lower) < HostOrder(higher)
  }

  lemma {:induction false} BorderFaces(frags: seq<Fragment>, list: seq<Neighbor>, k: nat)
    returns (lower: Address, higher: Address)
    requires HostFragmented(frags, list) && k + 1 < |frags|
    ensures Facing(frags, k, lower, higher)
    ensures frags[k].upper == frags[k + 1].lower && frags[k].upper as nat == BorderFlag(lower, higher)
  {
    hide HostOrder, BorderFlag;
    assert Borders(frags[k], frags[k + 1], 4);
    PiecesOf(frags, HostLess);
    lower, higher := Last(frags[k].entries).address, frags[k + 1].entries[0].address;
    assert HostLess(lower, higher);
  }

  lemma {:induction false} Frames(frags: seq<Fragment>, list: seq<Neighbor>, k: nat)
    requires HostFragmented(frags, list) && k < |frags|
    ensures Framed(frags[k], 4) && AscendingBy(frags[k].entries, HostLess)
    ensures k == 0 ==> LowCut(frags[k], 4) == Zeros(4)
    ensures k == |frags| - 1 ==> HighCut(frags[k], 4) == Ones(4)
    ensures 0 < k ==> frags[k].entries != [] && frags[k].lower != 0xff
    ensures k < |frags| - 1 ==> frags[k].entries != [] && frags[k].upper != 0xff
  {
    hide HostOrder, BorderFlag, HostLess;
    PiecesOf(frags, HostLess);
    ShapedPieces(frags, 4, k);
    if k > 0 {
      var a, b := BorderFaces(frags, list, k - 1);
      FlagInRange(a, b);
    }
    if k + 1 < |frags| {
      var a, b := BorderFaces(frags, list, k);
      FlagInRange(a, b);
    }
  }

  lemma {:induction false} FlagInRange(a: Address, b: Address)
    requires |a| == |b| == 4 && HostOrder(a) < HostOrder(b)
    ensures a != b && 1 <= BorderFlag(a, b) <= 32
  {
  }

  /** Both sides of a border rebuild one address, whatever the order. */
  lemma {:induction false} CutShared(frags: seq<Fragment>, list: seq<Neighbor>, k: nat, lower: Address, higher: Address)
    requires HostFragmented(frags, list) && Facing(frags, k, lower, higher)
    ensures lower != higher && Framed(frags[k], 4) && Framed(frags[k + 1], 4)
    ensures HighCut(frags[k], 4) == LowCut(frags[k + 1], 4)
    ensures 1 <= BorderFlag(lower, higher) <= 32 && HighCut(frags[k], 4) == Cut(lower, BorderFlag(lower, higher))
  {
    hide HostOrder, BorderFlag, HostLess, Cut, Fragmented;
    FlagInRange(lower, higher);
    Frames(frags, list, k);
    Frames(frags, list, k + 1);
    var a, b := BorderFaces(frags, list, k);
    CutParts(lower, higher);
  }

  /** Every neighbour lies inside the interval that receivers rebuild from its own fragment. */
  ghost predicate HostInside(f: Fragment)
    requires Framed(f, 4)
  {
    forall i :: 0 <= i < |f.entries| ==>
      && HostOrder(LowCut(f, 4)) <= HostOrder(f.entries[i].address)
      && (HostOrder(f.entries[i].address) < HostOrder(HighCut(f, 4)) || f.entries[i].address == Ones(4))
  }

  ghost predicate AllInside(frags: seq<Fragment>) {
    forall k :: 0 <= k < |frags| ==> Framed(frags[k], 4) && HostInside(frags[k])
  }

  ghost predicate AllAligned(frags: seq<Fragment>) {
    forall k, lower, higher :: Facing(frags, k, lower, higher) ==> lower != higher && HostAligned(lower, higher)
  }

  lemma {:induction false} HostExtremes(a: Address)
    requires |a| == 4
    ensures HostOrder(Zeros(4)) == 0 && HostOrder(Ones(4)) == 0xffff_ffff
    ensures HostOrder(a) <= 0xffff_ffff && (HostOrder(a) == 0xffff_ffff <==> a == Ones(4))
  {
    HostOrderTellsApart(a, Ones(4));
  }

  /** A border between two fragments whose neighbours lie inside separates them. */
  lemma {:induction false} InsideMeansAligned(frags: seq<Fragment>, list: seq<Neighbor>, k: nat, lower: Address,
                                              higher: Address)
    requires HostFragmented(frags, list) && AllInside(frags) && Facing(frags, k, lower, higher)
    ensures lower != higher && HostAligned(lower, higher)
  {
    hide HostOrder, BorderFlag, HostLess, Cut, Fragmented, LowCut, HighCut, HostAligned;
    CutShared(frags, list, k, lower, higher);
    var f, g := frags[k], frags[k + 1];
    assert HostInside(f) && HostInside(g);
    assert f.entries[|f.entries| - 1].address == lower && g.entries[0].address == higher;
    HostExtremes(higher);
    HostExtremes(lower);
    HostSeparatesExactly(lower, higher);
  }

  lemma {:induction false} AlignedMeansInside(frags: seq<Fragment>, list: seq<Neighbor>, k: nat)
    requires HostFragmented(frags, list) && AllAligned(frags) && k < |frags|
    ensures Framed(frags[k], 4) && HostInside(frags[k])
    ensures HostOrder(LowCut(frags[k], 4)) <= HostOrder(HighCut(frags[k], 4))
  {
    hide HostOrder, BorderFlag, Cut, Fragmented, LowCut, HighCut, HostAligned;
    Frames(frags, list, k);
    var f := frags[k];
    var low, high := HostOrder(LowCut(f, 4)), HostOrder(HighCut(f, 4));
    if k > 0 {
      var a, b := BorderFaces(frags, list, k - 1);
      CutShared(frags, list, k - 1, a, b);
      HostSeparatesExactly(a, b);
      assert low <= HostOrder(f.entries[0].address);
    }
    if k + 1 < |frags| {
      var a, b := BorderFaces(frags, list, k);
      CutShared(frags, list, k, a, b);
      HostSeparatesExactly(a, b);
      assert HostOrder(Last(f.entries).address) < high;
    }
    HostExtremes(LowCut(f, 4));
    forall i | 0 <= i < |f.entries|
      ensures low <= HostOrder(f.entries[i].address)
      ensures HostOrder(f.entries[i].address) < high || f.entries[i].address == Ones(4)
    {
      HostExtremes(f.entries[i].address);
    }
  }

  /**
   The intervals of a message hold its own neighbours exactly when all its borders stand between aligned addresses.
   */
  lemma {:induction false} HostInsideExactly(frags: seq<Fragment>, list: seq<Neighbor>)
    requires HostFragmented(frags, list)
    ensures AllInside(frags) <==> AllAligned(frags)
  {
    hide HostOrder, BorderFlag, Cut, Fragmented, LowCut, HighCut, HostAligned, HostInside, Framed;
    if AllInside(frags) {
      forall k, lower, higher | Facing(frags, k, lower, higher) ensures lower != higher && HostAligned(lower, higher) {
        InsideMeansAligned(frags, list, k, lower, higher);
      }
    }
    if AllAligned(frags) {
      forall k | 0 <= k < |frags| ensures Framed(frags[k], 4) && HostInside(frags[k]) {
        AlignedMeansInside(frags, list, k);
      }
    }
  }

  /** The test of olsr_delete_revoked_tc_edges in host order. */
  ghost predicate HostClaims(f: Fragment, x: Address)
    requires Framed(f, 4) && |x| == 4
  {
    HostOrder(LowCut(f, 4)) <= HostOrder(x) < HostOrder(HighCut(f, 4))
  }

  /** Exactly one fragment claims the address. */
  ghost predicate ClaimedOnce(frags: seq<Fragment>, x: Address)
    requires |x| == 4 && forall k :: 0 <= k < |frags| ==> Framed(frags[k], 4)
  {
    && (exists k :: 0 <= k < |frags| && HostClaims(frags[k], x))
    && (forall i, j :: 0 <= i < j < |frags| ==> !(HostClaims(frags[i], x) && HostClaims(frags[j], x)))
  }

  /** The cuts run from one end of the address space to the other, and adjacent fragments share them. */
  ghost predicate HostChain(frags: seq<Fragment>) {
    && frags != [] && (forall k :: 0 <= k < |frags| ==> Framed(frags[k], 4))
    && HostOrder(LowCut(frags[0], 4)) == 0 && HostOrder(HighCut(frags[|frags| - 1], 4)) == 0xffff_ffff
    && (forall k :: 0 <= k < |frags| - 1 ==> HighCut(frags[k], 4) == LowCut(frags[k + 1], 4))
  }

  /** No interval is upside down. */
  ghost predicate CutsAscend(frags: seq<Fragment>)
    requires forall k :: 0 <= k < |frags| ==> Framed(frags[k], 4)
  {
    forall k :: 0 <= k < |frags| ==> HostOrder(LowCut(frags[k], 4)) <= HostOrder(HighCut(frags[k], 4))
  }

  lemma {:induction false} FragmentsChain(frags: seq<Fragment>, list: seq<Neighbor>)
    requires HostFragmented(frags, list)
    ensures HostChain(frags)
  {
    hide HostOrder, BorderFlag, Cut, LowCut, HighCut;
    HostExtremes(Zeros(4));
    Frames(frags, list, 0);
    Frames(frags, list, |frags| - 1);
    forall k | 0 <= k < |frags| ensures Framed(frags[k], 4) {
      Frames(frags, list, k);
    }
    forall k | 0 <= k < |frags| - 1 ensures HighCut(frags[k], 4) == LowCut(frags[k + 1], 4) {
      var a, b := BorderFaces(frags, list, k);
      CutShared(frags, list, k, a, b);
    }
  }

  /** Below the upper cut of fragment k some fragment up to k claims the address. */
  lemma {:induction false} ClaimedUpTo(frags: seq<Fragment>, x: Address, k: nat) returns (j: nat)
    requires HostChain(frags) && |x| == 4 && k < |frags| && HostOrder(x) < HostOrder(HighCut(frags[k], 4))
    ensures j <= k && HostClaims(frags[j], x)
  {
    hide HostOrder, LowCut, HighCut, Framed;
    if HostOrder(LowCut(frags[k], 4)) <= HostOrder(x) {
      j := k;
    } else {
      assert HighCut(frags[k - 1], 4) == LowCut(frags[k - 1 + 1], 4);
      j := ClaimedUpTo(frags, x, k - 1);
    }
  }

  /** From the lower cut of fragment k on some fragment from k on claims it. */
  lemma {:induction false} ClaimedFrom(frags: seq<Fragment>, x: Address, k: nat) returns (j: nat)
    requires HostChain(frags) && |x| == 4 && k < |frags|
    requires HostOrder(LowCut(frags[k], 4)) <= HostOrder(x) < 0xffff_ffff
    ensures k <= j < |frags| && HostClaims(frags[j], x)
    decreases |frags| - k
  {
    hide HostOrder, LowCut, HighCut, Framed;
    if HostOrder(x) < HostOrder(HighCut(frags[k], 4)) {
      j := k;
    } else {
      assert k < |frags| - 1 ==> HighCut(frags[k], 4) == LowCut(frags[k + 1], 4);
      j := ClaimedFrom(frags, x, k + 1);
    }
  }

  lemma {:induction false} CutsInOrder(frags: seq<Fragment>, i: nat, j: nat)
    requires HostChain(frags) && CutsAscend(frags) && i < j < |frags|
    ensures HostOrder(HighCut(frags[i], 4)) <= HostOrder(LowCut(frags[j], 4))
  {
    hide HostOrder, LowCut, HighCut, Framed;
    assert HighCut(frags[j - 1], 4) == LowCut(frags[j - 1 + 1], 4);
    if i < j - 1 {
      CutsInOrder(frags, i, j - 1);
    }
  }

  lemma {:induction false} AscendingClaimsOnce(frags: seq<Fragment>, x: Address)
    requires HostChain(frags) && CutsAscend(frags) && |x| == 4 && x != Ones(4)
    ensures ClaimedOnce(frags, x)
  {
    hide HostOrder, LowCut, HighCut, Framed, CutsAscend;
    HostExtremes(x);
    var k := ClaimedUpTo(frags, x, |frags| - 1);
    forall i, j | 0 <= i < j < |frags| ensures !(HostClaims(frags[i], x) && HostClaims(frags[j], x)) {
      CutsInOrder(frags, i, j);
    }
  }

  /** The upper cut of a fragment that is upside down is claimed by one fragment before it and one behind it. */
  lemma {:induction false} DescentClaimsTwice(frags: seq<Fragment>, k: nat)
    requires HostChain(frags) && k < |frags| && HostOrder(HighCut(frags[k], 4)) < HostOrder(LowCut(frags[k], 4))
    ensures HighCut(frags[k], 4) != Ones(4) && !ClaimedOnce(frags, HighCut(frags[k], 4))
  {
    hide HostOrder, LowCut, HighCut, Framed;
    var x := HighCut(frags[k], 4);
    HostExtremes(x);
    HostExtremes(LowCut(frags[k], 4));
    assert k > 0 ==> HighCut(frags[k - 1], 4) == LowCut(frags[k - 1 + 1], 4);
    assert k < |frags| - 1 ==> HighCut(frags[k], 4) == LowCut(frags[k + 1], 4);
    var i := ClaimedUpTo(frags, x, k - 1);
    var j := ClaimedFrom(frags, x, k + 1);
    assert i < j && HostClaims(frags[i], x) && HostClaims(frags[j], x);
  }

  /** There the fragments divide the address space exactly when their cuts ascend as host numbers. */
  lemma {:induction false} HostPartitionExactly(frags: seq<Fragment>, list: seq<Neighbor>)
    requires HostFragmented(frags, list)
    ensures forall k :: 0 <= k < |frags| ==> Framed(frags[k], 4)
    ensures (forall x: Address :: |x| == 4 && x != Ones(4) ==> ClaimedOnce(frags, x)) <==> CutsAscend(frags)
  {
    hide HostOrder, LowCut, HighCut, Framed, Fragmented, ClaimedOnce;
    FragmentsChain(frags, list);
    if CutsAscend(frags) {
      forall x: Address | |x| == 4 && x != Ones(4) ensures ClaimedOnce(frags, x) {
        AscendingClaimsOnce(frags, x);
      }
    } else {
      var k :| 0 <= k < |frags| && HostOrder(LowCut(frags[k], 4)) > HostOrder(HighCut(frags[k], 4));
      DescentClaimsTwice(frags, k);
    }
  }

  /** Aligned borders are one such case. */
  lemma {:induction false} HostPartition(frags: seq<Fragment>, list: seq<Neighbor>)
    requires HostFragmented(frags, list) && AllAligned(frags)
    ensures forall k :: 0 <= k < |frags| ==> Framed(frags[k], 4)
    ensures CutsAscend(frags) && forall x: Address :: |x| == 4 && x != Ones(4) ==> ClaimedOnce(frags, x)
  {
    hide HostOrder, LowCut, HighCut, Framed, Fragmented, HostAligned, ClaimedOnce;
    HostPartitionExactly(frags, list);
    forall k | 0 <= k < |frags| ensures HostOrder(LowCut(frags[k], 4)) <= HostOrder(HighCut(frags[k], 4)) {
      AlignedMeansInside(frags, list, k);
    }
  }

  /** The fragments of a list of three neighbours, one each. */
  ghost function Three(x: Neighbor, y: Neighbor, z: Neighbor, f: Byte, g: Byte): seq<Fragment> {
    [Fragment(0xff, f, [x]), Fragment(f, g, [y]), Fragment(g, 0xff, [z])]
  }

  lemma {:induction false} ThreeFragmented(x: Neighbor, y: Neighbor, z: Neighbor, f: Byte, g: Byte)
    requires |x.address| == |y.address| == |z.address| == 4 && |x.lq| == |y.lq| == |z.lq| == 4
    requires HostOrder(x.address) < HostOrder(y.address) < HostOrder(z.address)
    requires f as nat == BorderFlag(x.address, y.address) && g as nat == BorderFlag(y.address, z.address)
    ensures HostFragmented(Three(x, y, z, f, g), [x, y, z])
  {
    hide BorderFlag, HostOrder;
    var frags := Three(x, y, z, f, g);
    ThreeEntries(frags[0], frags[1], frags[2]);
    hide Entries;
    assert [x] + [y] + [z] == [x, y, z];
    assert Borders(frags[0], frags[1], 4) && Borders(frags[1], frags[2], 4);
  }

  /** A list whose three fragments claim the cut [2, 0, 0, 0] twice. */
  lemma {:induction false} HostOverlap() returns (frags: seq<Fragment>, list: seq<Neighbor>)
    ensures HostFragmented(frags, list)
    ensures (forall k :: 0 <= k < |frags| ==> Framed(frags[k], 4)) && !CutsAscend(frags)
    ensures !ClaimedOnce(frags, [2, 0, 0, 0])
  {
    var a, b, c := [1, 0, 0, 1], [1, 0, 0, 2], [2, 0, 0, 3];
    var x, y, z := Neighbor(a, Zeros(4)), Neighbor(b, Zeros(4)), Neighbor(c, Zeros(4));
    list, frags := [x, y, z], Three(x, y, z, 2, 26);
    OverlapFlags();
    LowerCut();
    UpperCut();
    assert HostOrder(a) < HostOrder(b) < HostOrder(c) && HostOrder([2, 0, 0, 0]) < HostOrder([1, 0, 0, 2]);
    hide BorderFlag, Cut, ClaimedOnce, HostOrder, HostFragmented;
    ThreeFragmented(x, y, z, 2, 26);
    FragmentsChain(frags, list);
    hide Framed;
    assert HighCut(frags[1], 4) == [2, 0, 0, 0] && LowCut(frags[1], 4) == [1, 0, 0, 2];
    DescentClaimsTwice(frags, 1);
  }

  lemma {:induction false} OverlapFlags()
    ensures BorderFlag([1, 0, 0, 1], [1, 0, 0, 2]) == 2 && BorderFlag([1, 0, 0, 2], [2, 0, 0, 3]) == 26
  {
    FirstDifferenceUnique([1, 0, 0, 1], [1, 0, 0, 2], 3);
    FirstDifferenceUnique([1, 0, 0, 2], [2, 0, 0, 3], 0);
    hide FirstDifference;
    TopBitUnique(1, 2, 1);
  }

  lemma {:induction false} LowerCut()
    ensures Cut([1, 0, 0, 2], 2) == [1, 0, 0, 2]
  {
    var a: Address := [1, 0, 0, 2];
    assert CutByte(2, 1) == 2;
    hide CutByte;
    assert Cut(a, 2) == a[..3] + [2] + Zeros(0);
  }

  lemma {:induction false} UpperCut()
    ensures Cut([1, 0, 0, 2], 26) == [2, 0, 0, 0]
  {
    var a: Address := [1, 0, 0, 2];
    assert CutByte(1, 1) == 2;
    hide CutByte;
    assert Cut(a, 26) == a[..0] + [2] + Zeros(3);
  }

  lemma {:induction false} ThreeEntries(f: Fragment, g: Fragment, h: Fragment)
    ensures Entries([f, g, h]) == f.entries + g.entries + h.entries
  {
    assert Entries([]) == [];
    hide Entries;
    EntriesAppend([], f);
    EntriesAppend([f], g);
    EntriesAppend([f, g], h);
    assert [] + [f] == [f] && [f] + [g] == [f, g] && [f, g] + [h] == [f, g, h];
  }
}
