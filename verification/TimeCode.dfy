/**
 The eight-bit mantissa and exponent form in which validity times travel (src/mantissa.c): the high four bits are
 the mantissa a, the low four the exponent b, and the value is (1 + a/16) * 2^b / 16 seconds.
 */
module TimeCode {

  /** Milliseconds in an unsigned 32-bit word. */
  type Time = t: nat | t < 0x1_0000_0000
  type Code = c: nat | c < 256

  function Pow2(n: nat): (r: nat)
    ensures r > 0
  {
    if n == 0 then 1 else 2 * Pow2(n - 1)
  }

  lemma {:induction false} Pow2Adds(m: nat, n: nat)
    ensures Pow2(m + n) == Pow2(m) * Pow2(n)
  {
    if m != 0 {
      Pow2Adds(m - 1, n);
      assert Pow2(m + n) == 2 * Pow2(m - 1 + n);
    }
  }

  lemma {:induction false} Pow2Monotone(m: nat, n: nat)
    requires m <= n
    ensures Pow2(m) <= Pow2(n)
  {
    if m < n {
      Pow2Monotone(m, n - 1);
    }
  }

  // ---- The two functions ------------------------------------------------------------------------------------------

  /** The number of bits of n. */
  function Bits(n: nat): nat {
    if n == 0 then 0 else 1 + Bits(n / 2)
  }

  lemma {:induction false} EvenBits(n: nat)
    ensures Bits(n * 2) != 1
  {
    assert n != 0 ==> Bits(n * 2) == 1 + Bits(n);
  }

  function Mantissa(t: nat, b: nat): int
    requires 0 < b
  {
    var rest := t - 125 * Pow2(b - 1);
    if b >= 5 then rest / (125 * Pow2(b - 5)) else rest * Pow2(5 - b) / 125
  }

  /** reltime_to_me; a time that needs more than 16 bits gets the largest code. */
  function Encode(t: Time): Code {
    var bits := Bits(t / 125 * 2);
    if bits == 0 then 16
    else if bits > 16 then 255
    else
      EvenBits(t / 125);
      Octave(t, bits - 1);
      MantissaIs(t, bits - 1);
      Mantissa(t, bits - 1) * 16 + (bits - 1)
  }

  /** The value of a mantissa and an exponent. */
  function Value(a: nat, b: nat): nat {
    if b >= 8 then Scaled(a, Pow2(b - 8) * 1000) else Div(Scaled(a, 1000), Pow2(8 - b))
  }

  function Div(x: nat, k: nat): nat
    requires k > 0
  {
    x / k
  }

  function Scaled(a: nat, u: nat): nat {
    (16 + a) * u
  }

  /** me_to_reltime */
  function Decode(c: Code): nat {
    Value(c / 16, c % 16)
  }

  // ---- A common form: times are counted in units of U/K milliseconds ----------------------------------------------

  function U(b: nat): (u: nat)
    ensures u > 0
  {
    if b >= 5 then 125 * Pow2(b - 5) else 125
  }

  function K(b: nat): (k: nat)
    ensures k > 0
  {
    if b >= 5 then 1 else Pow2(5 - b)
  }

  lemma {:induction false} PowTable()
    ensures Pow2(0) == 1 && Pow2(1) == 2 && Pow2(2) == 4 && Pow2(3) == 8 && Pow2(4) == 16 && Pow2(5) == 32
    ensures Pow2(6) == 64 && Pow2(7) == 128 && Pow2(8) == 256
  {
    assert Pow2(3) == 8;
    assert Pow2(5) == 32;
    assert Pow2(7) == 128;
  }

  lemma {:induction false} DivOfMultiple(x: nat, q: nat, k: nat)
    requires q > 0 && k > 0
    ensures x * q / (k * q) == x / k
  {
    var d := x / k;
    assert x == d * k + x % k;
    assert x * q == d * (k * q) + (x % k) * q;
    assert 0 <= (x % k) * q < k * q by { MulLess(x % k, k, q); }
    DivIs(x * q, k * q, d, (x % k) * q);
  }

  lemma {:induction false} MulLess(x: nat, y: nat, q: nat)
    requires x < y && q > 0
    ensures x * q < y * q
  {
  }

  lemma {:induction false} DivIs(x: nat, u: nat, d: nat, rest: nat)
    requires x == d * u + rest && rest < u
    ensures x / u == d
  {
    var e := x / u;
    assert x == e * u + x % u;
    assert (d - e) * u == d * u - e * u == -((e - d) * u);
    if e < d {
      MulMonotone(1, d - e, u);
    } else if e > d {
      MulMonotone(1, e - d, u);
    }
  }

  lemma {:induction false} MulMonotone(x: nat, y: nat, u: nat)
    requires x <= y
    ensures x * u <= y * u
  {
  }

  /** Both branches of the decoder compute the same expression. */
  lemma {:induction false} ValueIs(a: nat, b: nat)
    ensures Value(a, b) == Scaled(a, U(b)) / K(b)
  {
    PowTable();
    if b >= 8 {
      Pow2Adds(b - 8, 3);
      assert U(b) == 1000 * Pow2(b - 8);
    } else if b >= 5 {
      Pow2Adds(b - 5, 8 - b);
      DivOfMultiple(Scaled(a, U(b)), Pow2(8 - b), 1);
      assert 1000 == 125 * (Pow2(b - 5) * Pow2(8 - b));
      assert Scaled(a, 1000) == Scaled(a, U(b)) * Pow2(8 - b);
    } else {
      DivOfMultiple(Scaled(a, 125), 8, Pow2(5 - b));
      Pow2Adds(5 - b, 3);
    }
  }

  // ---- What the encoder computes ----------------------------------------------------------------------------------

  lemma {:induction false} BitsMeans(n: nat, b: nat)
    ensures Bits(n) == b + 1 <==> Pow2(b) <= n < Pow2(b + 1)
  {
    if n != 0 && b != 0 {
      BitsMeans(n / 2, b - 1);
      assert Pow2(b) == 2 * Pow2(b - 1) && Pow2(b + 1) == 2 * Pow2(b);
    } else {
      PowTable();
      assert n > 1 ==> Bits(n) == 1 + Bits(n / 2) && Bits(n / 2) != 0;
    }
  }

  /** The exponent says in which octave of 125 ms the time lies. */
  ghost predicate InOctave(t: nat, b: nat)
    requires 0 < b
  {
    125 * Pow2(b - 1) <= t < 125 * Pow2(b)
  }

  lemma {:induction false} Octave(t: nat, b: nat)
    requires 0 < b
    ensures Bits(t / 125 * 2) == b + 1 <==> InOctave(t, b)
  {
    BitsMeans(t / 125 * 2, b);
    assert Pow2(b) == 2 * Pow2(b - 1) && Pow2(b + 1) == 2 * Pow2(b);
  }

  lemma {:induction false} OctaveScale(b: nat)
    requires 0 < b
    ensures 125 * Pow2(b - 1) * K(b) == 16 * U(b) && 125 * Pow2(b) * K(b) == 32 * U(b)
  {
    PowTable();
    if b >= 5 {
      Pow2Adds(b - 5, 4);
    } else {
      Pow2Adds(b - 1, 5 - b);
    }
    assert Pow2(b) == 2 * Pow2(b - 1);
  }

  lemma {:induction false} DivMinus(x: nat, u: nat)
    requires u > 0 && 16 * u <= x
    ensures (x - 16 * u) / u == x / u - 16
  {
    var d := x / u;
    assert x == d * u + x % u;
    assert (d + 1) * u == d * u + u;
    if d < 16 {
      MulMonotone(d + 1, 16, u);
    }
    assert (d - 16) * u == d * u - 16 * u;
    DivIs(x - 16 * u, u, d - 16, x % u);
  }

  lemma {:induction false} UnitCount(t: nat, p: nat, q: nat, k: nat, u: nat)
    requires k > 0 && u > 0 && p * k == 16 * u && q * k == 32 * u && p <= t < q
    ensures ((t - p) * k) / u == t * k / u - 16
    ensures 16 <= t * k / u < 32
  {
    MulMonotone(p, t, k);
    MulLess(t, q, k);
    DivMinus(t * k, u);
    assert (t - p) * k == t * k - p * k;
    DivBound(t * k, u);
  }

  /** Both branches of the encoder count the whole units in the time. */
  lemma {:induction false} MantissaIs(t: nat, b: nat)
    requires 0 < b && InOctave(t, b)
    ensures Mantissa(t, b) == t * K(b) / U(b) - 16
    ensures 0 <= Mantissa(t, b) < 16
  {
    OctaveScale(b);
    UnitCount(t, 125 * Pow2(b - 1), 125 * Pow2(b), K(b), U(b));
    MantissaForm(t, b);
  }

  lemma {:induction false} MantissaForm(t: nat, b: nat)
    requires 0 < b
    ensures Mantissa(t, b) == ((t - 125 * Pow2(b - 1)) * K(b)) / U(b)
  {
  }

  lemma {:induction false} DivBound(x: nat, u: nat)
    requires u > 0 && 16 * u <= x < 32 * u
    ensures 16 <= x / u < 32
  {
    var d := x / u;
    assert d * u <= x < d * u + u;
    MulMonotone(32, if d < 32 then 32 else d, u);
    DivMinus(x, u);
  }

  // ---- The three ranges of times ----------------------------------------------------------------------------------

  const LIMIT: nat := 4096000

  lemma {:induction false} PowLimit()
    ensures 125 * Pow2(15) == LIMIT && Pow2(16) == 65536
  {
    PowTable();
    Pow2Adds(8, 7);
    Pow2Adds(8, 8);
  }

  lemma {:induction false} ShortTime(t: Time)
    requires t < 125
    ensures Encode(t) == 16 && Decode(16) == 66
  {
    PowTable();
    assert Scaled(1, 1000) == 17000;
  }

  lemma {:induction false} LongTime(t: Time)
    ensures Bits(t / 125 * 2) > 16 <==> t >= LIMIT
    ensures t >= LIMIT ==> Encode(t) == 255
    ensures Decode(255) == 3968000
  {
    var n := t / 125 * 2;
    PowLimit();
    PowTable();
    assert Scaled(15, 128000) == 3968000;
    if Bits(n) != 0 {
      BitsMeans(n, Bits(n) - 1);
      if Bits(n) > 16 {
        Pow2Monotone(16, Bits(n) - 1);
      } else {
        Pow2Monotone(Bits(n), 16);
      }
    }
  }

  /** A time in between has an exponent from 1 to 15, the mantissa counts its whole units beyond 16. */
  lemma {:induction false} MiddleTime(t: Time) returns (a: nat, b: nat)
    requires 125 <= t < LIMIT
    ensures a < 16 && 0 < b < 16 && InOctave(t, b) && Encode(t) == a * 16 + b
    ensures Decode(Encode(t)) == Scaled(a, U(b)) / K(b)
    ensures Scaled(a, U(b)) <= t * K(b) < Scaled(a, U(b)) + U(b)
  {
    hide Mantissa, U, K, Pow2, Value, InOctave;
    a, b := MiddleCode(t);
    Assembled(a, b);
    ValueIs(a, b);
    UnitsIn(t * K(b), U(b));
  }

  lemma {:induction false} MiddleCode(t: Time) returns (a: nat, b: nat)
    requires 125 <= t < LIMIT
    ensures a < 16 && 0 < b < 16 && InOctave(t, b) && Encode(t) == a * 16 + b && a == t * K(b) / U(b) - 16
  {
    hide Mantissa, U, K, Pow2, InOctave;
    LongTime(t);
    EvenBits(t / 125);
    b := Bits(t / 125 * 2) - 1;
    Octave(t, b);
    MantissaIs(t, b);
    a := Mantissa(t, b);
  }

  lemma {:induction false} Assembled(a: nat, b: nat)
    requires b < 16
    ensures (a * 16 + b) / 16 == a && (a * 16 + b) % 16 == b
  {
  }

  lemma {:induction false} UnitsIn(x: nat, u: nat)
    requires u > 0
    ensures (x / u) * u <= x < (x / u) * u + u
  {
  }

  // ---- The results ------------------------------------------------------------------------------------------------

  lemma {:induction false} DivideOut(x: int, y: int, k: nat)
    requires k > 0 && x * k < y * k
    ensures x < y
  {
  }

  lemma {:induction false} RoundingBound(t: nat, d: nat, s: nat, u: nat, k: nat)
    requires k > 0 && d * k <= s < d * k + k && s <= t * k < s + u && 16 * u <= t * k
    ensures d <= t && 16 * (t - d) < t + 16
  {
    assert (t + 1) * k == t * k + k;
    DivideOut(d, t + 1, k);
    assert (16 * (t - d)) * k == 16 * (t * k) - 16 * (d * k);
    assert (t + 16) * k == t * k + 16 * k;
    DivideOut(16 * (t - d), t + 16, k);
  }

  /** The value sent is at most the time meant, and closer than a sixteenth of it plus one millisecond. */
  lemma {:induction false} RoundsDown(t: Time)
    requires 125 <= t < LIMIT
    ensures var d := Decode(Encode(t)); d <= t && 16 * (t - d) < t + 16
  {
    hide Scaled, Encode, Decode, U, K, Pow2;
    var a, b := MiddleTime(t);
    UnitsIn(Scaled(a, U(b)), K(b));
    OctaveScale(b);
    MulMonotone(125 * Pow2(b - 1), t, K(b));
    RoundingBound(t, Decode(Encode(t)), Scaled(a, U(b)), U(b), K(b));
  }

  /** It never exceeds the time meant, except below the smallest value sent. */
  lemma {:induction false} AtMostExactly(t: Time)
    ensures Decode(Encode(t)) <= t <==> t >= 66
  {
    hide Encode, Decode;
    if t < 125 {
      ShortTime(t);
    } else if t < LIMIT {
      RoundsDown(t);
    } else {
      LongTime(t);
    }
  }

  lemma {:induction false} DivMonotone(x: nat, y: nat, k: nat)
    requires k > 0 && x <= y
    ensures x / k <= y / k
  {
    UnitsIn(x, k);
    UnitsIn(y, k);
    assert (y / k + 1) * k == (y / k) * k + k;
    DivideOut(x / k, y / k + 1, k);
  }

  /** A value is in the octave of its exponent. */
  lemma {:induction false} ValueInOctave(a: nat, b: nat)
    requires a < 16 && 0 < b
    ensures InOctave(Scaled(a, U(b)) / K(b), b)
  {
    var u, k, s := U(b), K(b), Scaled(a, U(b));
    hide U, K, Pow2;
    OctaveScale(b);
    MulMonotone(16, 16 + a, u);
    MulMonotone(17 + a, 32, u);
    assert (17 + a) * u == s + u;
    UnitsIn(s, k);
    assert (s / k + 1) * k == (s / k) * k + k;
    DivideOut(s / k, 125 * Pow2(b), k);
    DivideOut(125 * Pow2(b - 1), s / k + 1, k);
  }

  lemma {:induction false} ScaledMonotone(a: nat, c: nat, u: nat)
    requires Scaled(a, u) < Scaled(c, u) + u
    ensures a <= c
  {
    assert (17 + c) * u == Scaled(c, u) + u;
    DivideOut(16 + a, 17 + c, u);
  }

  /** Longer times are not sent as shorter ones. */
  lemma {:induction false} Monotone(s: Time, t: Time)
    requires s <= t
    ensures Decode(Encode(s)) <= Decode(Encode(t)) <= 3968000
  {
    hide Encode, Decode;
    LongTime(s);
    LongTime(t);
    if t < 125 {
      ShortTime(s);
      ShortTime(t);
    } else if t < LIMIT {
      AtMostLargest(t);
      if s < 125 {
        ShortTime(s);
        RoundsDown(t);
      } else {
        MonotoneBetween(s, t);
      }
    } else if s < 125 {
      ShortTime(s);
    } else if s < LIMIT {
      AtMostLargest(s);
    }
  }

  lemma {:induction false} AtMostLargest(t: Time)
    requires 125 <= t < LIMIT
    ensures Decode(Encode(t)) <= 3968000
    ensures Decode(Encode(t)) == 3968000 <==> t >= 3968000
  {
    var a, b := MiddleTime(t);
    hide Encode, Decode;
    RoundsDown(t);
    PowLimit();
    PowTable();
    if b < 15 {
      Pow2Monotone(b, 14);
    } else {
      Pow2Adds(5, 5);
      assert U(15) == 128000 && K(15) == 1;
    }
  }

  lemma {:induction false} MonotoneBetween(s: Time, t: Time)
    requires 125 <= s <= t < LIMIT
    ensures Decode(Encode(s)) <= Decode(Encode(t))
  {
    hide Encode, Decode, U, K, Scaled;
    var a, b := MiddleTime(s);
    var c, e := MiddleTime(t);
    if b == e {
      MulMonotone(s, t, K(b));
      ScaledMonotone(a, c, U(b));
      ScaledGrows(a, c, U(b));
      DivMonotone(Scaled(a, U(b)), Scaled(c, U(b)), K(b));
    } else {
      if e < b {
        Pow2Monotone(e, b - 1);
      } else {
        Pow2Monotone(b, e - 1);
      }
      RoundsDown(s);
      ValueInOctave(c, e);
    }
  }

  lemma {:induction false} ScaledGrows(a: nat, c: nat, u: nat)
    requires a <= c
    ensures Scaled(a, u) <= Scaled(c, u)
  {
    MulMonotone(16 + a, 16 + c, u);
  }

  /** The largest value is sent from 3968 seconds on. */
  lemma {:induction false} Saturates(t: Time)
    ensures Decode(Encode(t)) == 3968000 <==> t >= 3968000
  {
    hide Encode, Decode;
    LongTime(t);
    if t < 125 {
      ShortTime(t);
    } else if t < LIMIT {
      AtMostLargest(t);
    }
  }

  // ---- Codes that survive -----------------------------------------------------------------------------------------

  /** Every decoded value is positive and fits the word. */
  lemma {:induction false} DecodeRange(c: Code)
    ensures 62 <= Decode(c) <= 3968000
  {
    var a, b := c / 16, c % 16;
    ValueIs(a, b);
    PowTable();
    if b == 0 {
      SmallestOctave(a);
    } else {
      ValueInOctave(a, b);
      Pow2Monotone(0, b - 1);
      if b < 15 {
        Pow2Monotone(b, 14);
        PowLimit();
      } else {
        Pow2Adds(5, 5);
        assert U(15) == 128000;
      }
    }
  }

  lemma {:induction false} SmallestOctave(a: nat)
    requires a < 16
    ensures 62 <= Value(a, 0) < 125
  {
    PowTable();
    assert Scaled(a, 1000) == 16000 + 1000 * a;
  }

  /** A code comes back from its value exactly when the value is not rounded, or it is the code of short times. */
  predicate Survivor(c: Code) {
    var a, b := c / 16, c % 16;
    if b == 0 then a == 1 else b >= 5 || a % (if b == 1 then 16 else if b == 2 then 8 else if b == 3 then 4 else 2) == 0
  }

  lemma {:induction false} Survives(c: Code)
    ensures Decode(c) < 0x1_0000_0000
    ensures Encode(Decode(c)) == c <==> Survivor(c)
  {
    hide Decode, Encode;
    var a, b := c / 16, c % 16;
    DecodeRange(c);
    if b == 0 {
      ShortValue(c);
    } else {
      LongValue(c);
      Unrounded(a, b);
    }
  }

  lemma {:induction false} ShortValue(c: Code)
    requires c % 16 == 0
    ensures Decode(c) < 125 && Encode(Decode(c)) == 16
  {
    SmallestOctave(c / 16);
    ShortTime(Decode(c));
  }

  lemma {:induction false} LongValue(c: Code)
    requires c % 16 != 0
    ensures Decode(c) < 0x1_0000_0000
    ensures Encode(Decode(c)) == c <==> Scaled(c / 16, U(c % 16)) % K(c % 16) == 0
  {
    var a, b := c / 16, c % 16;
    DecodeRange(c);
    var t: Time := Decode(c);
    ValueIs(a, b);
    ValueInOctave(a, b);
    Octave(t, b);
    MantissaIs(t, b);
    assert Encode(t) == Mantissa(t, b) * 16 + b;
    RoundedUnits(Scaled(a, U(b)), 16 + a, U(b), K(b));
  }

  /** Rounding the value of m units to whole milliseconds keeps the m units exactly when nothing is rounded off. */
  lemma {:induction false} RoundedUnits(s: nat, m: nat, u: nat, k: nat)
    requires s == m * u && u > 0 && k > 0
    ensures (s / k) * k / u == m <==> s % k == 0
  {
    var x := (s / k) * k;
    UnitsIn(x, u);
    if s % k == 0 {
      DivIs(x, u, m, 0);
    }
  }

  lemma {:induction false} Unrounded(a: nat, b: nat)
    requires a < 16 && 0 < b < 16
    ensures Scaled(a, U(b)) % K(b) == 0 <==> Survivor(a * 16 + b)
  {
    PowTable();
    Assembled(a, b);
    assert b < 5 ==> Scaled(a, U(b)) == 2000 + 125 * a;
  }

  // ---- The encoder as it runs -------------------------------------------------------------------------------------

  lemma {:induction false} Pow2Above(n: nat)
    ensures Pow2(n) > n
  {
    if n != 0 {
      Pow2Above(n - 1);
    }
  }

  /** The loop that looks for the exponent. */
  method FirstAbove(unscaled: nat) returns (b: nat)
    ensures b == Bits(unscaled)
  {
    b := 0;
    Pow2Above(unscaled);
    while unscaled >= Pow2(b)
      invariant b == 0 || Pow2(b - 1) <= unscaled
      invariant b <= unscaled + 1
    {
      b := b + 1;
      Pow2Above(b - 1);
    }
    if b != 0 {
      BitsMeans(unscaled, b - 1);
    }
  }

  /** The mantissa, in a byte. */
  method ComputeMantissa(interval: Time, b: nat) returns (a: nat)
    requires 0 < b && InOctave(interval, b)
    ensures a == Mantissa(interval, b) < 16
  {
    MantissaIs(interval, b);
    var rest: nat := interval - 125 * Pow2(b - 1);
    if b >= 5 {
      a := Div(rest, 125 * Pow2(b - 5)) % 256;
    } else {
      a := Div(rest * Pow2(5 - b), 125) % 256;
    }
  }

  lemma {:induction false} Packed(a: nat, b: nat)
    requires a < 16 && b < 16
    ensures a / 16 == 0 && a % 16 == a && a * 16 % 256 + b % 16 == a * 16 + b
  {
  }

  method ReltimeToMe(interval: Time) returns (code: Code)
    ensures code == Encode(interval)
  {
    hide Pow2, Mantissa;
    var b := FirstAbove(interval / 125 * 2);
    var a := 1;
    if b != 0 {
      EvenBits(interval / 125);
      b := b - 1;
      if b > 15 {
        a, b := 15, 15;
      } else {
        Octave(interval, b);
        a := ComputeMantissa(interval, b);
        Packed(a, b);
        b := b + a / 16;
        a := a % 16;
      }
    }
    Packed(a, b);
    code := a * 16 % 256 + b % 16;
  }
}
