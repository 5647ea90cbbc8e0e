/**
How woCompare ranks values, in terms of type codes and bytes: the types one
after the other, and the numbers of each type by what their bytes stand for.
*/
module Ranking {
  import opened Bson
  import opened Doubles
  import opened Ordering

  // ----- types -----

  const CLASSES: nat := 16

  /** The type codes of the classes, from the least to the greatest. */
  function TypeClass(i: nat): set<Byte> {
    if i == 0 then {255}            // MinKey
    else if i == 1 then {6}         // undefined
    else if i == 2 then {10}        // null
    else if i == 3 then {1, 16, 18} // double, 32-bit and 64-bit integer
    else if i == 4 then {2, 14}     // string, symbol
    else if i == 5 then {3}         // object
    else if i == 6 then {4}         // array
    else if i == 7 then {5}         // binary
    else if i == 8 then {7}         // object id
    else if i == 9 then {8}         // boolean
    else if i == 10 then {9, 17}    // date, timestamp
    else if i == 11 then {11}       // regular expression
    else if i == 12 then {12}       // reference
    else if i == 13 then {13}       // code
    else if i == 14 then {15}       // code with scope
    else {127}                      // MaxKey
  }

  lemma EveryTypeHasAClass(v: Value) returns (i: nat)
    requires GoodValue(v)
    ensures i < CLASSES && TypeOf(v) in TypeClass(i)
  {
    var t := TypeOf(v);
    i := if t == 255 then 0 else if t == 6 then 1 else if t == 10 then 2 else if t in {1, 16, 18} then 3
         else if t in {2, 14} then 4 else if t == 3 then 5 else if t == 4 then 6 else if t == 5 then 7
         else if t == 7 then 8 else if t == 8 then 9 else if t in {9, 17} then 10 else if t == 11 then 11
         else if t == 12 then 12 else if t == 13 then 13 else if t == 15 then 14 else 15;
  }

  lemma ClassIsCanonical(t: Byte, i: nat)
    requires i < CLASSES && t in TypeClass(i)
    ensures CanonicalType(t) == if i == 0 then -1 else if i == 15 then 127 else 5 * (i - 1)
  {
  }

  /** A value of an earlier class is less than one of a later class, whatever the names and the values. */
  lemma TypesInOrder(a: Bytes, u: Value, b: Bytes, v: Value, i: nat, j: nat)
    requires GoodValue(u) && GoodValue(v) && i < j < CLASSES
    requires TypeOf(u) in TypeClass(i) && TypeOf(v) in TypeClass(j)
    ensures WoCompare(a, u, b, v).Is? && WoCompare(a, u, b, v).x < 0
    ensures WoCompare(b, v, a, u).Is? && WoCompare(b, v, a, u).x > 0
  {
    hide CanonicalType, TypeClass;
    ClassIsCanonical(TypeOf(u), i);
    ClassIsCanonical(TypeOf(v), j);
  }

  // ----- integers -----

  /** Four bytes as a signed number. */
  function Signed4(s: Bytes): int
    requires |s| == 4
  {
    s[0] as int + 256 * s[1] as int + 65536 * s[2] as int + 16777216 * s[3] as int
    - if s[3] >= 128 then 0x1_0000_0000 else 0
  }

  /** Eight bytes as an unsigned number. */
  function Unsigned8(s: Bytes): int
    requires |s| == 8
  {
    s[0] as int + 0x100 * s[1] as int + 0x1_0000 * s[2] as int + 0x100_0000 * s[3] as int
    + 0x1_0000_0000 * s[4] as int + 0x100_0000_0000 * s[5] as int
    + 0x1_0000_0000_0000 * s[6] as int + 0x100_0000_0000_0000 * s[7] as int
  }

  function Signed8(s: Bytes): int
    requires |s| == 8
  {
    Unsigned8(s) - if s[7] >= 128 then 0x1_0000_0000_0000_0000 else 0
  }

  function Order(n: int, m: int): int { if n < m then -1 else if n == m then 0 else 1 }

  lemma FourBytes(s: Bytes)
    requires |s| == 4
    ensures Signed32(s) == Signed4(s)
  {
    hide LittleEndian, Wrap32;
    Digits(s, 3);
    Digits(s, 2);
    Digits(s, 1);
    Digits(s, 0);
    Nothing(s[4..]);
    assert s[0..] == s;
    var n := LittleEndian(s);
    assert s[3] >= 128 <==> n >= TWO31;
    assert Wrap32(n) == Signed4(s) by {
      if s[3] >= 128 {
        WrapDown(n);
      }
    }
  }

  lemma WrapDown(n: int)
    requires TWO31 <= n < TWO32
    ensures Wrap32(n) == n - TWO32
  {
  }

  lemma EightBytesAre(s: Bytes)
    requires |s| == 8
    ensures LittleEndian(s) == Unsigned8(s) && Signed64(s) == Signed8(s)
  {
    hide LittleEndian;
    Digits(s, 7);
    Digits(s, 6);
    Digits(s, 5);
    Digits(s, 4);
    Digits(s, 3);
    Digits(s, 2);
    Digits(s, 1);
    Digits(s, 0);
    Nothing(s[8..]);
    assert s[0..] == s;
  }

  /** Fixed-size values of one type and name compare by CompareFixed. */
  lemma SameType(name: Bytes, u: Value, v: Value)
    requires u.Fixed? && v.Fixed? && GoodValue(u) && GoodValue(v) && CanonicalType(u.tag) == CanonicalType(v.tag)
    ensures WoCompare(name, u, name, v) == CompareFixed(u, v)
  {
    hide CompareFixed, Strcmp;
    StrcmpZero(name, name);
  }

  /** 32-bit integers in two's complement, the low byte first. */
  lemma IntsInOrder(name: Bytes, s: Bytes, t: Bytes)
    requires |s| == 4 && |t| == 4
    ensures var u, v := Fixed(16, s), Fixed(16, t);
      GoodValue(u) && GoodValue(v) && WoCompare(name, u, name, v) == Is(Order(Signed4(s), Signed4(t)))
  {
    hide WoCompare, Signed32, Signed4;
    FourBytes(s);
    FourBytes(t);
    SameType(name, Fixed(16, s), Fixed(16, t));
  }

  /** 64-bit integers and dates: signed. */
  lemma LongsInOrder(name: Bytes, code: Byte, s: Bytes, t: Bytes)
    requires code in {9, 18} && |s| == 8 && |t| == 8
    ensures var u, v := Fixed(code, s), Fixed(code, t);
      GoodValue(u) && GoodValue(v) && WoCompare(name, u, name, v) == Is(Order(Signed8(s), Signed8(t)))
  {
    hide WoCompare, Signed64, Signed8;
    EightBytesAre(s);
    EightBytesAre(t);
    SameType(name, Fixed(code, s), Fixed(code, t));
  }

  /** Timestamps: unsigned. */
  lemma TimestampsInOrder(name: Bytes, s: Bytes, t: Bytes)
    requires |s| == 8 && |t| == 8
    ensures var u, v := Fixed(17, s), Fixed(17, t);
      GoodValue(u) && GoodValue(v) && WoCompare(name, u, name, v) == Is(Order(Unsigned8(s), Unsigned8(t)))
  {
    hide WoCompare, LittleEndian, Unsigned8;
    EightBytesAre(s);
    EightBytesAre(t);
    SameType(name, Fixed(17, s), Fixed(17, t));
  }

  /** Booleans: one signed byte. */
  lemma BoolsInOrder(name: Bytes, s: Byte, t: Byte)
    ensures var u, v := Fixed(8, [s]), Fixed(8, [t]);
      GoodValue(u) && GoodValue(v) && WoCompare(name, u, name, v).Is?
      && (WoCompare(name, u, name, v).x < 0 <==> (s + 128) % 256 < (t + 128) % 256)
      && (WoCompare(name, u, name, v).x == 0 <==> s == t)
  {
    hide WoCompare;
    SameType(name, Fixed(8, [s]), Fixed(8, [t]));
  }

  /** Integers of both widths compare by value, up to the precision of a double. */
  lemma IntMeetsLong(name: Bytes, s: Bytes, t: Bytes)
    requires |s| == 4 && |t| == 8 && -0x20_0000_0000_0000 <= Signed8(t) <= 0x20_0000_0000_0000
    ensures var u, v := Fixed(16, s), Fixed(18, t);
      && GoodValue(u) && GoodValue(v)
      && WoCompare(name, u, name, v) == Is(Order(Signed4(s), Signed8(t)))
      && WoCompare(name, v, name, u) == Is(Order(Signed8(t), Signed4(s)))
  {
    hide WoCompare, Signed32, Signed64, Signed4, Signed8, Spacing, RoundHalfEven;
    FourBytes(s);
    EightBytesAre(t);
    SameType(name, Fixed(16, s), Fixed(18, t));
    SameType(name, Fixed(18, t), Fixed(16, s));
  }

  // ----- doubles -----

  const SIGN: int := 0x8000_0000_0000_0000
  const INFINITY: int := 0x7ff0_0000_0000_0000

  /** The bits without the sign. */
  function Magnitude(s: Bytes): int
    requires |s| == 8
  {
    Unsigned8(s) - if s[7] >= 128 then SIGN else 0
  }

  predicate IsNaN(s: Bytes)
    requires |s| == 8
  {
    Magnitude(s) > INFINITY
  }

  /** Sign and magnitude as one number; both zeros are 0. */
  function Place(s: Bytes): int
    requires |s| == 8
  {
    if s[7] >= 128 then -Magnitude(s) else Magnitude(s)
  }

  /** The value of a positive double by its bits. */
  function Size(bits: nat): real {
    var fraction, exponent := bits % 0x10_0000_0000_0000, bits / 0x10_0000_0000_0000;
    if exponent == 0 then fraction as real * Pow2(-1074)
    else (fraction + 0x10_0000_0000_0000) as real * Pow2(exponent - 1075)
  }

  lemma {:induction false} Pow2Positive(k: int)
    ensures Pow2(k) > 0.0
    decreases if k < 0 then -k else k
  {
    if k > 0 {
      Pow2Positive(k - 1);
    } else if k < 0 {
      Pow2Positive(k + 1);
    }
  }

  lemma {:induction false} Pow2Monotone(k: int, m: int)
    requires k <= m
    ensures Pow2(k) <= Pow2(m)
    decreases m - k
  {
    if k < m {
      Pow2Monotone(k, m - 1);
      Pow2Step(m - 1);
      Pow2Positive(m - 1);
    }
  }

  lemma Scale(x: real, y: real, z: real)
    requires x < y && z > 0.0
    ensures x * z < y * z
  {
  }

  lemma ScaleUp(x: real, y: real, z: real, w: real)
    requires 0.0 <= x <= y && 0.0 <= z <= w
    ensures x * z <= y * w
  {
  }

  /** A value is below the first one with a greater exponent. */
  lemma BelowNextExponent(bits: nat)
    ensures Size(bits) < 0x10_0000_0000_0000 as real * Pow2(bits / 0x10_0000_0000_0000 + 1 - 1075)
  {
    hide Pow2;
    var f, e := bits % 0x10_0000_0000_0000, bits / 0x10_0000_0000_0000;
    var two52 := 0x10_0000_0000_0000 as real;
    Pow2Positive(e - 1075);
    Pow2Positive(-1074);
    if e == 0 {
      Scale(f as real, two52, Pow2(-1074));
    } else {
      Pow2Step(e - 1075);
      Scale((f + 0x10_0000_0000_0000) as real, 2.0 * two52, Pow2(e - 1075));
    }
  }

  lemma SizeMonotone(b: nat, c: nat)
    requires b < c
    ensures Size(b) < Size(c)
  {
    hide Pow2;
    var e, g := b / 0x10_0000_0000_0000, c / 0x10_0000_0000_0000;
    var f, h := b % 0x10_0000_0000_0000, c % 0x10_0000_0000_0000;
    if e == g {
      Pow2Positive(-1074);
      Pow2Positive(e - 1075);
      if e == 0 {
        Scale(f as real, h as real, Pow2(-1074));
      } else {
        Scale((f + 0x10_0000_0000_0000) as real, (h + 0x10_0000_0000_0000) as real, Pow2(e - 1075));
      }
    } else {
      BelowNextExponent(b);
      Pow2Monotone(e + 1 - 1075, g - 1075);
      Pow2Positive(e + 1 - 1075);
      ScaleUp(0x10_0000_0000_0000 as real, (h + 0x10_0000_0000_0000) as real, Pow2(e + 1 - 1075), Pow2(g - 1075));
    }
  }

  lemma SizeZero()
    ensures Size(0) == 0.0
  {
    hide Pow2;
    NoTimes(Pow2(-1074));
    assert 0 % 0x10_0000_0000_0000 == 0 && 0 / 0x10_0000_0000_0000 == 0;
  }

  lemma NoTimes(x: real)
    ensures 0 as real * x == 0.0
  {
  }

  lemma DoubleIs(s: Bytes)
    requires |s| == 8
    ensures 0 <= Magnitude(s) < SIGN
    ensures DoubleOf(s) ==
      var m := Magnitude(s);
      if m > INFINITY then NaN
      else if m == INFINITY then (if s[7] >= 128 then NegInf else PosInf)
      else Finite(if s[7] >= 128 then -Size(m) else Size(m))
  {
    hide LittleEndian, Pow2, Unsigned8;
    EightBytesAre(s);
    SignBit(s);
    SplitBits(Unsigned8(s), Magnitude(s));
  }

  lemma SignBit(s: Bytes)
    requires |s| == 8
    ensures 0 <= Unsigned8(s) < 2 * SIGN && (s[7] >= 128 <==> Unsigned8(s) >= SIGN)
  {
  }

  lemma SplitBits(bits: nat, m: nat)
    requires m < SIGN && (bits == m || bits == m + SIGN)
    ensures bits % 0x10_0000_0000_0000 == m % 0x10_0000_0000_0000
    ensures bits / 0x10_0000_0000_0000 % 2048 == m / 0x10_0000_0000_0000
    ensures m / 0x10_0000_0000_0000 == 2047 <==> m >= INFINITY
    ensures m >= INFINITY ==> (m % 0x10_0000_0000_0000 != 0 <==> m > INFINITY)
  {
  }

  /** The doubles that are numbers come in the order of sign and magnitude. */
  lemma PlacesAgree(s: Bytes, t: Bytes)
    requires |s| == 8 && |t| == 8 && !IsNaN(s) && !IsNaN(t)
    ensures CompareDoubles(DoubleOf(s), DoubleOf(t)) == Order(Place(s), Place(t))
  {
    hide DoubleOf, Size, Unsigned8;
    DoubleIs(s);
    DoubleIs(t);
    SizeZero();
    var m, n := Magnitude(s), Magnitude(t);
    if m < n {
      SizeMonotone(m, n);
    } else if n < m {
      SizeMonotone(n, m);
    }
    if m > 0 {
      SizeMonotone(0, m);
    }
    if n > 0 {
      SizeMonotone(0, n);
    }
  }

  /** Doubles in the order of their bits, sign and magnitude apart; NaN below all of them. */
  lemma DoublesInOrder(name: Bytes, s: Bytes, t: Bytes)
    requires |s| == 8 && |t| == 8
    ensures var u, v := Fixed(1, s), Fixed(1, t);
      GoodValue(u) && GoodValue(v) && WoCompare(name, u, name, v) ==
        if IsNaN(s) || IsNaN(t) then Is(if IsNaN(s) && IsNaN(t) then 0 else if IsNaN(s) then -1 else 1)
        else Is(Order(Place(s), Place(t)))
  {
    hide WoCompare, DoubleOf, Size, Magnitude;
    DoubleIs(s);
    DoubleIs(t);
    SameType(name, Fixed(1, s), Fixed(1, t));
    if !IsNaN(s) && !IsNaN(t) {
      PlacesAgree(s, t);
    }
  }

  /** NaN is less than every integer. */
  lemma NaNLeast(name: Bytes, s: Bytes, code: Byte, t: Bytes)
    requires |s| == 8 && IsNaN(s) && ((code == 16 && |t| == 4) || (code == 18 && |t| == 8))
    ensures var u, v := Fixed(1, s), Fixed(code, t);
      GoodValue(u) && GoodValue(v) && WoCompare(name, u, name, v) == Is(-1) && WoCompare(name, v, name, u) == Is(1)
  {
    hide WoCompare, DoubleOf, Size, Magnitude, ToDouble, Signed32, Signed64;
    DoubleIs(s);
    SameType(name, Fixed(1, s), Fixed(code, t));
    SameType(name, Fixed(code, t), Fixed(1, s));
  }

  /** Conversion takes the nearest multiple of the spacing, the even one of two. */
  lemma RoundsToNearest(m: nat, q: nat)
    requires q > 0
    ensures var r := RoundHalfEven(m, q);
      && 2 * (m - r * q) <= q && 2 * (r * q - m) <= q
      && ((2 * (r * q - m) == q || 2 * (m - r * q) == q) && q > 1 ==> r % 2 == 0)
  {
    var n := m / q;
    assert m == n * q + m % q;
    assert (n + 1) * q == n * q + q;
  }

  /** The spacing is the least power of two that leaves 53 bits. */
  lemma SpacingLeast(m: nat)
    requires m <= TWO63
    ensures var q := Spacing(m, 1);
      m <= 0x20_0000_0000_0000 * q && (q == 1 || 2 * m > 0x20_0000_0000_0000 * q)
  {
    SpacingFrom(m, 0);
  }

  lemma {:induction false} SpacingFrom(m: nat, k: nat)
    requires m <= TWO63 && k <= 10 && (k == 0 || 2 * m > TWO53 * IntPow2(k))
    ensures var q := Spacing(m, IntPow2(k));
      m <= TWO53 * q && (q == 1 || 2 * m > TWO53 * q)
    decreases 10 - k
  {
    FourMore(2);
    FourMore(6);
    if m > TWO53 * IntPow2(k) {
      SpacingFrom(m, k + 1);
    }
  }

  // ----- bytes -----

  /** At the first difference x has the smaller byte, or has ended. */
  predicate DecidedAt(x: Bytes, y: Bytes, k: nat) {
    && k <= |x| && k < |y| && (forall j :: 0 <= j < k ==> x[j] == y[j])
    && (k == |x| || x[k] < y[k])
  }

  /** The lexicographic order of byte strings. */
  predicate Precedes(x: Bytes, y: Bytes) { exists k :: 0 <= k < |y| && DecidedAt(x, y, k) }

  lemma PrecedesTail(x: Bytes, y: Bytes)
    requires x != [] && y != [] && x[0] == y[0]
    ensures Precedes(x, y) <==> Precedes(x[1..], y[1..])
  {
    if k :| 0 <= k < |y| && DecidedAt(x, y, k) {
      assert DecidedAt(x[1..], y[1..], k - 1);
    }
    if k :| 0 <= k < |y[1..]| && DecidedAt(x[1..], y[1..], k) {
      assert forall j :: 1 <= j < k + 1 ==> x[j] == x[1..][j - 1] && y[j] == y[1..][j - 1];
      assert DecidedAt(x, y, k + 1);
    }
  }

  lemma PrecedesHead(x: Bytes, y: Bytes)
    requires y != [] && (x == [] || x[0] != y[0])
    ensures Precedes(x, y) <==> x == [] || x[0] < y[0]
  {
    if x == [] || x[0] < y[0] {
      assert DecidedAt(x, y, 0);
    }
  }

  lemma {:induction false} StrcmpIsLexicographic(x: Bytes, y: Bytes)
    ensures (Strcmp(x, y) < 0 <==> Precedes(x, y)) && (Strcmp(x, y) == 0 <==> x == y)
    decreases |x|
  {
    StrcmpZero(x, y);
    if x != [] && y != [] && x[0] == y[0] {
      StrcmpIsLexicographic(x[1..], y[1..]);
      PrecedesTail(x, y);
    } else if y != [] {
      PrecedesHead(x, y);
    }
  }

  lemma {:induction false} MemcmpIsLexicographic(x: Bytes, y: Bytes)
    requires |x| == |y|
    ensures (Memcmp(x, y) < 0 <==> Precedes(x, y)) && (Memcmp(x, y) == 0 <==> x == y)
  {
    if x != [] {
      if x[0] == y[0] {
        MemcmpIsLexicographic(x[1..], y[1..]);
        PrecedesTail(x, y);
        assert x == [x[0]] + x[1..] && y == [y[0]] + y[1..];
      } else {
        PrecedesHead(x, y);
      }
    }
  }

  /** Within a class of types different names decide, whatever the values. */
  lemma NamesInOrder(a: Bytes, u: Value, b: Bytes, v: Value, i: nat)
    requires GoodValue(u) && GoodValue(v) && i < CLASSES && TypeOf(u) in TypeClass(i) && TypeOf(v) in TypeClass(i) && a != b
    ensures WoCompare(a, u, b, v).Is? && WoCompare(a, u, b, v).x != 0
    ensures WoCompare(a, u, b, v).x < 0 <==> Precedes(a, b)
  {
    hide CanonicalType, TypeClass, Strcmp, CompareValues;
    ClassIsCanonical(TypeOf(u), i);
    ClassIsCanonical(TypeOf(v), i);
    StrcmpIsLexicographic(a, b);
  }

  lemma SameName(name: Bytes, u: Value, v: Value)
    requires GoodValue(u) && GoodValue(v) && CanonicalType(TypeOf(u)) == CanonicalType(TypeOf(v))
    ensures WoCompare(name, u, name, v) == CompareValues(u, v)
  {
    hide CompareValues, CanonicalType, Strcmp;
    StrcmpZero(name, name);
  }

  /** Strings and symbols among themselves, and code, in the order of their bytes, zeros included. */
  lemma StringsInOrder(name: Bytes, code: Byte, s: Bytes, other: Byte, t: Bytes)
    requires (code in {2, 14} && other in {2, 14}) || (code == 13 && other == 13)
    ensures var u, v := Text(code, s), Text(other, t);
      && GoodValue(u) && GoodValue(v) && WoCompare(name, u, name, v).Is?
      && (WoCompare(name, u, name, v).x < 0 <==> Precedes(s, t))
      && (WoCompare(name, u, name, v).x == 0 <==> s == t)
  {
    hide WoCompare, CompareStrings;
    SameName(name, Text(code, s), Text(other, t));
    StringsLexicographic(s, t);
  }

  lemma StringsLexicographic(s: Bytes, t: Bytes)
    ensures (CompareStrings(s, t) < 0 <==> Precedes(s, t)) && (CompareStrings(s, t) == 0 <==> s == t)
  {
    hide Memcmp, Precedes;
    var l, r := s + [0], t + [0];
    var n := if |l| < |r| then |l| else |r|;
    MemcmpIsLexicographic(l[..n], r[..n]);
    CutPrecedes(s, t, n);
  }

  /** Cut to one length, terminators included, the texts differ as they do, or the shorter one is a beginning of the other. */
  lemma CutPrecedes(s: Bytes, t: Bytes, n: nat)
    requires n == (if |s| < |t| then |s| else |t|) + 1
    ensures var l, r := (s + [0])[..n], (t + [0])[..n];
      && (l == r ==> (Precedes(s, t) <==> |s| < |t|) && (s == t <==> |s| == |t|))
      && (l != r ==> (Precedes(l, r) <==> Precedes(s, t)) && s != t)
  {
    var l, r := (s + [0])[..n], (t + [0])[..n];
    assert forall j :: 0 <= j < n - 1 ==> l[j] == s[j] && r[j] == t[j];
    if k :| 0 <= k < |t| && DecidedAt(s, t, k) {
      if l != r {
        assert k == |s| ==> l[k] == 0 && r[k] == t[k];
        assert l[k] != r[k];
        assert DecidedAt(l, r, k);
      }
    }
    if k :| 0 <= k < |r| && DecidedAt(l, r, k) {
      assert k == |s| ==> l[k] == 0;
      assert DecidedAt(s, t, k);
    }
    if l == r && |s| < |t| {
      assert DecidedAt(s, t, |s|);
    }
  }

  /** Object ids in the order of their twelve bytes. */
  lemma ObjectIdsInOrder(name: Bytes, s: Bytes, t: Bytes)
    requires |s| == 12 && |t| == 12
    ensures var u, v := Fixed(7, s), Fixed(7, t);
      && GoodValue(u) && GoodValue(v) && WoCompare(name, u, name, v).Is?
      && (WoCompare(name, u, name, v).x < 0 <==> Precedes(s, t))
      && (WoCompare(name, u, name, v).x == 0 <==> s == t)
  {
    hide WoCompare, Memcmp;
    SameType(name, Fixed(7, s), Fixed(7, t));
    MemcmpIsLexicographic(s, t);
  }

  /** Binary data by length, then by subtype and bytes. */
  lemma BinariesInOrder(name: Bytes, c: Byte, s: Bytes, d: Byte, t: Bytes)
    ensures var u, v := Binary(c, s), Binary(d, t);
      && GoodValue(u) && GoodValue(v) && WoCompare(name, u, name, v).Is?
      && (WoCompare(name, u, name, v).x < 0 <==> |s| < |t| || (|s| == |t| && Precedes([c] + s, [d] + t)))
      && (WoCompare(name, u, name, v).x == 0 <==> c == d && s == t)
  {
    hide WoCompare, Memcmp;
    SameName(name, Binary(c, s), Binary(d, t));
    if |s| == |t| {
      MemcmpIsLexicographic([c] + s, [d] + t);
      assert ([c] + s)[0] == c && ([c] + s)[1..] == s && ([d] + t)[0] == d && ([d] + t)[1..] == t;
    }
  }

  /** Regular expressions by pattern, then by options. */
  lemma RegexesInOrder(name: Bytes, p: Bytes, o: Bytes, q: Bytes, r: Bytes)
    requires NulFree(p) && NulFree(o) && NulFree(q) && NulFree(r)
    ensures var u, v := Regex(p, o), Regex(q, r);
      && GoodValue(u) && GoodValue(v) && WoCompare(name, u, name, v).Is?
      && (WoCompare(name, u, name, v).x < 0 <==> Precedes(p, q) || (p == q && Precedes(o, r)))
      && (WoCompare(name, u, name, v).x == 0 <==> p == q && o == r)
  {
    hide WoCompare, Strcmp, Precedes;
    SameName(name, Regex(p, o), Regex(q, r));
    StrcmpIsLexicographic(p, q);
    StrcmpIsLexicographic(o, r);
    NotBefore(p);
  }

  lemma NotBefore(p: Bytes)
    ensures !Precedes(p, p)
  {
  }
}
