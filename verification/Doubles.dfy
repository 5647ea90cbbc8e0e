/**
64-bit integers and IEEE 754 doubles as they lie in eight bytes, and the
conversion of the one to the other.
*/
module Doubles {
  import opened Bson

  const TWO53: int := 0x20_0000_0000_0000
  const TWO63: int := 0x8000_0000_0000_0000
  const TWO64: int := 0x1_0000_0000_0000_0000

  /** The value of a double; both zeros are one value. */
  datatype Double = NaN | NegInf | Finite(r: real) | PosInf

  function Pow2(k: int): real
    decreases if k < 0 then -k else k
  {
    if k == 0 then 1.0 else if k > 0 then 2.0 * Pow2(k - 1) else Pow2(k + 1) / 2.0
  }

  function LittleEndian(raw: Bytes): nat {
    if raw == [] then 0 else raw[0] + 256 * LittleEndian(raw[1..])
  }

  function Unsigned64(raw: Bytes): nat { LittleEndian(raw) }

  function Signed64(raw: Bytes): int {
    var n := LittleEndian(raw);
    if n < TWO63 then n else n - TWO64
  }

  function Signed32(raw: Bytes): int { Wrap32(LittleEndian(raw)) }

  /** An IEEE 754 double from its eight bytes: sign, 11 bits of exponent, 52 bits of fraction. */
  function DoubleOf(raw: Bytes): Double
    requires |raw| == 8
  {
    var bits := LittleEndian(raw);
    var fraction := bits % 0x10_0000_0000_0000;
    var exponent := bits / 0x10_0000_0000_0000 % 2048;
    var negative := bits >= TWO63;
    if exponent == 2047 then (if fraction != 0 then NaN else if negative then NegInf else PosInf)
    else
      var size := if exponent == 0 then fraction as real * Pow2(-1074)
                  else (fraction + 0x10_0000_0000_0000) as real * Pow2(exponent - 1075);
      Finite(if negative then -size else size)
  }

  /** m / q rounded to the nearest integer, ties to even. */
  function RoundHalfEven(m: nat, q: nat): nat
    requires q > 0
  {
    var n, twice := m / q, 2 * (m % q);
    if twice < q || (twice == q && n % 2 == 0) then n else n + 1
  }

  /** The distance of doubles around m: 1 up to 2^53, then doubling. */
  function Spacing(m: nat, q: nat): (r: nat)
    requires q > 0
    ensures r > 0
    ensures m <= TWO53 && q == 1 ==> r == 1
    decreases if m > TWO53 * q then m - TWO53 * q else 0
  {
    if m <= TWO53 * q then q else Spacing(m, 2 * q)
  }

  /** Conversion of a 64-bit integer to double. */
  function ToDouble(n: int): (d: Double)
    ensures d.Finite? && (-TWO53 <= n <= TWO53 ==> d == Finite(n as real))
  {
    var m: nat := if n < 0 then -n else n;
    var q := Spacing(m, 1);
    var r := RoundHalfEven(m, q) * q;
    Finite(if n < 0 then -(r as real) else r as real)
  }

  // ----- bytes for a number -----

  predicate Is64(n: int) { -TWO63 <= n < TWO63 }

  function Pow256(k: nat): nat { if k == 0 then 1 else 256 * Pow256(k - 1) }

  lemma Pow256Of8()
    ensures Pow256(8) == TWO64
  {
    assert Pow256(4) == 0x1_0000_0000 by { assert Pow256(2) == 0x1_0000; }
    assert Pow256(6) == 0x1_0000_0000_0000;
  }

  lemma {:induction false} LittleEndianBound(raw: Bytes)
    ensures LittleEndian(raw) < Pow256(|raw|)
  {
    if raw != [] {
      LittleEndianBound(raw[1..]);
    }
  }

  lemma Signed64Range(raw: Bytes)
    requires |raw| == 8
    ensures LittleEndian(raw) < TWO64 && Is64(Signed64(raw))
  {
    hide LittleEndian, Pow256;
    LittleEndianBound(raw);
    Pow256Of8();
  }

  function LeBytes(n: nat, k: nat): (r: Bytes)
    ensures |r| == k
  {
    if k == 0 then [] else [n % 256] + LeBytes(n / 256, k - 1)
  }

  lemma {:induction false} LeBytesValue(n: nat, k: nat)
    requires n < Pow256(k)
    ensures LittleEndian(LeBytes(n, k)) == n
  {
    if k > 0 {
      LeBytesValue(n / 256, k - 1);
      assert LeBytes(n, k)[1..] == LeBytes(n / 256, k - 1);
    }
  }

  /** Every number below 2^64 stands in eight bytes. */
  lemma EightBytes(n: nat) returns (raw: Bytes)
    requires n < TWO64
    ensures |raw| == 8 && LittleEndian(raw) == n
  {
    hide LittleEndian, Pow256;
    Pow256Of8();
    LeBytesValue(n, 8);
    raw := LeBytes(n, 8);
  }

  lemma LongBytes(n: int) returns (raw: Bytes)
    requires Is64(n)
    ensures |raw| == 8 && Signed64(raw) == n
  {
    hide LittleEndian;
    raw := EightBytes(if n < 0 then n + TWO64 else n);
  }

  // ----- bytes for a converted integer -----

  const TWO52: int := 0x10_0000_0000_0000

  function IntPow2(k: nat): (r: nat)
    ensures r > 0
  {
    if k == 0 then 1 else 2 * IntPow2(k - 1)
  }

  lemma {:induction false} IntPow2Is(k: nat)
    ensures IntPow2(k) as real == Pow2(k)
  {
    if k > 0 {
      IntPow2Is(k - 1);
    }
  }

  lemma Pow2Step(k: int)
    ensures Pow2(k + 1) == 2.0 * Pow2(k)
  {
  }

  /** The spacing is one of eleven powers of two, wide enough for 53 bits. */
  lemma {:induction false} SpacingPower(m: nat, k: nat) returns (e: nat)
    requires m <= TWO63 && k <= 10
    ensures k <= e <= 10 && Spacing(m, IntPow2(k)) == IntPow2(e) && m <= TWO53 * IntPow2(e)
    decreases 10 - k
  {
    FourMore(2);
    FourMore(6);
    if m <= TWO53 * IntPow2(k) {
      e := k;
    } else {
      e := SpacingPower(m, k + 1);
    }
  }

  lemma RoundBound(m: nat, q: nat)
    requires q > 0 && m <= TWO53 * q
    ensures RoundHalfEven(m, q) <= TWO53
  {
    var n := m / q;
    assert m == n * q + m % q;
    if n >= TWO53 {
      MulMonotone(TWO53, n, q);
      assert m % q == 0;
      if n > TWO53 {
        MulMonotone(TWO53 + 1, n, q);
      }
    }
  }

  lemma MulMonotone(a: nat, b: nat, q: nat)
    requires a <= b
    ensures a * q <= b * q
  {
  }

  /** A number of at most 53 bits, as 53 bits with the first one set. */
  lemma {:induction false} Normalize(n: nat, k: int, j: nat) returns (f: nat, e: int)
    requires 0 < n <= TWO53 && n * IntPow2(j) >= TWO52
    ensures TWO52 <= f < TWO53 && k - j <= e <= k + 1
    ensures f as real * Pow2(e) == n as real * Pow2(k)
    decreases j
  {
    if n == TWO53 {
      f, e := TWO52, k + 1;
      Pow2Step(k);
    } else if n >= TWO52 {
      f, e := n, k;
    } else {
      assert n * IntPow2(j) == (2 * n) * IntPow2(j - 1);
      f, e := Normalize(2 * n, k - 1, j - 1);
      Pow2Step(k - 1);
    }
  }

  /** The bytes of a normal double. */
  lemma NormalBytes(negative: bool, f: nat, e: int) returns (raw: Bytes)
    requires TWO52 <= f < TWO53 && -1074 <= e <= 970
    ensures |raw| == 8
    ensures DoubleOf(raw) == Finite(if negative then -(f as real * Pow2(e)) else f as real * Pow2(e))
  {
    hide LittleEndian, Pow2;
    var high := (if negative then 2048 else 0) + e + 1075;
    var bits := TWO52 * high + (f - TWO52);
    raw := EightBytes(bits);
    assert bits % TWO52 == f - TWO52 && bits / TWO52 == high;
    assert high % 2048 == e + 1075;
    assert bits >= TWO63 <==> negative;
  }

  lemma ZeroBytes() returns (raw: Bytes)
    ensures |raw| == 8 && DoubleOf(raw) == Finite(0.0)
  {
    hide LittleEndian, Pow2;
    raw := EightBytes(0);
  }

  lemma RealProduct(n: nat, q: nat)
    ensures (n * q) as real == n as real * q as real
  {
  }

  /** Whatever a 64-bit integer is converted to stands in eight bytes. */
  lemma ConvertedBytes(n: int) returns (raw: Bytes)
    requires Is64(n)
    ensures |raw| == 8 && DoubleOf(raw) == ToDouble(n)
  {
    hide LittleEndian, Pow2, Spacing, RoundHalfEven, IntPow2, DoubleOf;
    var m: nat := if n < 0 then -n else n;
    assert IntPow2(0) == 1 by { One(); }
    var k := SpacingPower(m, 0);
    var q := IntPow2(k);
    RoundBound(m, q);
    var r := RoundHalfEven(m, q);
    IntPow2Is(k);
    RealProduct(r, q);
    if r == 0 {
      raw := ZeroBytes();
    } else {
      Fits(r);
      var f, e := Normalize(r, k, 52);
      raw := NormalBytes(n < 0, f, e);
    }
  }

  lemma One()
    ensures IntPow2(0) == 1
  {
  }

  lemma FourMore(k: nat)
    ensures IntPow2(k + 4) == 16 * IntPow2(k)
  {
    assert IntPow2(k + 2) == 4 * IntPow2(k);
  }

  lemma {:induction false} BitsAndBytes(j: nat, n: nat)
    requires n == Pow256(j)
    ensures IntPow2(8 * j) == n
  {
    if j > 0 {
      BitsAndBytes(j - 1, Pow256(j - 1));
      FourMore(8 * j - 8);
      FourMore(8 * j - 4);
    }
  }

  lemma Fits(r: nat)
    requires r > 0
    ensures r * IntPow2(52) >= TWO52
  {
    hide IntPow2;
    assert Pow256(6) == 0x1_0000_0000_0000 by { assert Pow256(4) == 0x1_0000_0000 by { assert Pow256(2) == 0x1_0000; } }
    BitsAndBytes(6, Pow256(6));
    FourMore(48);
  }
}
