/**
parseNumberFromStringWithBase for any integer type: which strings are numerals,
what they denote, and that the overflow checks never overflow themselves.
*/
module ParseNumber {
  /** The range of an integer type of eight bits or more, signed (two's complement) or unsigned. */
  datatype NumberType = NumberType(min: int, max: int) {
    predicate Valid() { max >= 127 && (min == 0 || min == -max - 1) }

    predicate IsSigned() { min < 0 }

    predicate Holds(x: int) { min <= x <= max }

    /** A conversion to the type, or an arithmetic result in it, that must not lose anything. */
    function Narrow(x: int): int
      requires Holds(x)
    {
      x
    }
  }

  datatype Result = Ok(value: int) | BadBase | NoDigits | BadDigit | Underflow | Overflow | NegativeValue

  // ----- numerals -----

  // The digits of base b are the first b of these characters, in either case.

  function Numerals(): string { "0123456789" }

  function Small(): string { "abcdefghijklmnopqrstuvwxyz" }

  function Capital(): string { "ABCDEFGHIJKLMNOPQRSTUVWXYZ" }

  function PlaceIn(s: string, c: char): (k: nat)
    requires c in s
    ensures k < |s| && s[k] == c && forall j :: 0 <= j < k ==> s[j] != c
  {
    if s[0] == c then 0 else 1 + PlaceIn(s[1..], c)
  }

  /** What a digit is worth: its place among the digits and letters; 36 when it is none of them. */
  function Worth(c: char): (d: nat)
    ensures d <= 36
  {
    if c in Numerals() then PlaceIn(Numerals(), c)
    else if c in Small() then 10 + PlaceIn(Small(), c)
    else if c in Capital() then 10 + PlaceIn(Capital(), c)
    else 36
  }

  /** _digitValue; 36 is illegal in every base. */
  function DigitValue(c: char): (d: nat)
    ensures d <= 36
  {
    if '0' <= c <= '9' then (c - '0') as nat
    else if 'a' <= c <= 'z' then (c - 'a') as nat + 10
    else if 'A' <= c <= 'Z' then (c - 'A') as nat + 10
    else 36
  }

  lemma NumeralsCodes(k: nat)
    requires k < 10
    ensures |Numerals()| == 10 && Numerals()[k] as int == 48 + k
  {
  }

  lemma SmallCodes(k: nat)
    requires k < 26
    ensures |Small()| == 26 && Small()[k] as int == 97 + k
  {
  }

  lemma CapitalCodes(k: nat)
    requires k < 26
    ensures |Capital()| == 26 && Capital()[k] as int == 65 + k
  {
  }

  /** A character is among those of a range of codes exactly when its code is in the range. */
  predicate Range(s: string, base: int) {
    forall k :: 0 <= k < |s| ==> s[k] as int == base + k
  }

  lemma PlaceInRange(s: string, base: int, c: char)
    requires Range(s, base)
    ensures c in s <==> base <= c as int < base + |s|
    ensures c in s ==> PlaceIn(s, c) == c as int - base
  {
    if base <= c as int < base + |s| {
      assert s[c as int - base] == c;
    }
  }

  /** The ranges of character codes are the places in the alphabets. */
  lemma DigitIsPlace(c: char)
    ensures DigitValue(c) == Worth(c)
  {
    hide Numerals, Small, Capital, PlaceIn;
    NumeralsCodes(0);
    SmallCodes(0);
    CapitalCodes(0);
    assert Range(Numerals(), 48) by {
      forall k | 0 <= k < 10 ensures Numerals()[k] as int == 48 + k { NumeralsCodes(k); }
    }
    assert Range(Small(), 97) by {
      forall k | 0 <= k < 26 ensures Small()[k] as int == 97 + k { SmallCodes(k); }
    }
    assert Range(Capital(), 65) by {
      forall k | 0 <= k < 26 ensures Capital()[k] as int == 65 + k { CapitalCodes(k); }
    }
    PlaceInRange(Numerals(), 48, c);
    PlaceInRange(Small(), 97, c);
    PlaceInRange(Capital(), 65, c);
  }

  function Pow(b: nat, k: nat): nat {
    if k == 0 then 1 else b * Pow(b, k - 1)
  }

  function Times(a: nat, b: nat): nat { a * b }

  /** Positional value, most significant digit first. */
  function Value(ds: string, b: nat): (v: int)
    ensures v >= 0
  {
    if ds == "" then 0 else Times(Worth(ds[0]), Pow(b, |ds| - 1)) + Value(ds[1..], b)
  }

  predicate ValidDigits(ds: string, b: nat) {
    forall i :: 0 <= i < |ds| ==> Worth(ds[i]) < b
  }

  predicate LegalBase(base: int) { base == 0 || 2 <= base <= 36 }

  /**
   s is a numeral by the prefix rules of strtol (section 7.22.1.4 of ISO C11):
   an optional sign, a 0x prefix where the base is 16 or open, and at least
   one digit of the effective base b.
   */
  predicate Numeral(s: string, base: int, sign: string, prefix: string, b: nat, ds: string) {
    && s == sign + prefix + ds
    && sign in {"", "+", "-"} && prefix in {"", "0x", "0X"}
    && ds != "" && ValidDigits(ds, b)
    && if base == 0 then b == (if prefix != "" then 16 else if |ds| > 1 && ds[0] == '0' then 8 else 10)
       else b == base && (prefix != "" ==> base == 16)
  }

  function Signed(sign: string, n: int): int { if sign == "-" then -n else n }

  /** s denotes v in the type t; unsigned types have no negative numerals, not even -0. */
  ghost predicate Denotes(t: NumberType, s: string, base: int, v: int) {
    exists sign, prefix, b, ds ::
      Numeral(s, base, sign, prefix, b, ds) && v == Signed(sign, Value(ds, b))
      && t.Holds(v) && (sign == "-" ==> t.IsSigned())
  }

  lemma MulLaws(d: int, p: int, b: int, w: int)
    ensures d * (b * p) == (d * p) * b
    ensures (d * p + w) * b == (d * p) * b + w * b
  {
  }

  lemma {:induction false} ValueSnoc(ds: string, c: char, b: nat)
    ensures Value(ds + [c], b) == Value(ds, b) * b + Worth(c)
  {
    hide Worth;
    var e := ds + [c];
    if ds == "" {
      assert e[1..] == "" && Value(e[1..], b) == 0 && Pow(b, 0) == 1;
    } else {
      var d, p, w := Worth(ds[0]), Pow(b, |ds| - 1), Value(ds[1..], b);
      ValueSnoc(ds[1..], c, b);
      assert e[1..] == ds[1..] + [c];
      MulLaws(d, p, b, w);
      assert Value(e, b) == d * Pow(b, |ds|) + Value(e[1..], b);
      assert Pow(b, |ds|) == b * p;
    }
  }

  // ----- the two extractors -----

  function ExtractSign(s: string): (r: (string, bool)) {
    if s == "" then (s, false)
    else if s[0] == '-' then (s[1..], true)
    else if s[0] == '+' then (s[1..], false)
    else (s, false)
  }

  predicate StartsWithHexPrefix(s: string) {
    |s| >= 2 && (s[..2] == "0x" || s[..2] == "0X")
  }

  function ExtractBase(s: string, inputBase: int): (r: (string, int)) {
    if inputBase == 0 then
      if |s| > 2 && StartsWithHexPrefix(s) then (s[2..], 16)
      else if |s| > 1 && s[0] == '0' then (s, 8)
      else (s, 10)
    else if inputBase == 16 && StartsWithHexPrefix(s) then (s[2..], 16)
    else (s, inputBase)
  }

  /** The sign and prefix the extractors take off are part of every reading of s as a numeral. */
  lemma ExtractSound(s: string, base: int) returns (sign: string, prefix: string)
    ensures var (rest, neg) := ExtractSign(s);
      var (str, b) := ExtractBase(rest, base);
      && s == sign + prefix + str
      && sign in {"", "+", "-"} && prefix in {"", "0x", "0X"} && (neg <==> sign == "-")
      && (prefix != "" ==> b == 16 && (base == 0 || base == 16))
      && (base != 0 ==> b == base)
      && (base == 0 && prefix == "" ==> b == if |str| > 1 && str[0] == '0' then 8 else 10)
  {
    hide ExtractSign, ExtractBase;
    sign := SignSound(s);
    var rest := ExtractSign(s).0;
    prefix := BaseSound(rest, base);
    var str := ExtractBase(rest, base).0;
    assert sign + prefix + str == sign + (prefix + str);
  }

  lemma SignSound(s: string) returns (sign: string)
    ensures s == sign + ExtractSign(s).0 && sign in {"", "+", "-"} && (ExtractSign(s).1 <==> sign == "-")
  {
    sign := if s != "" && s[0] == '-' then "-" else if s != "" && s[0] == '+' then "+" else "";
  }

  lemma BaseSound(rest: string, base: int) returns (prefix: string)
    ensures var (str, b) := ExtractBase(rest, base);
      && rest == prefix + str && prefix in {"", "0x", "0X"}
      && (prefix != "" ==> b == 16 && (base == 0 || base == 16))
      && (base != 0 ==> b == base)
      && (base == 0 && prefix == "" ==> b == if |str| > 1 && str[0] == '0' then 8 else 10)
  {
    prefix := if rest == ExtractBase(rest, base).0 then "" else rest[..2];
  }

  lemma SignUnique(s: string, sign: string, rest: string)
    requires s == sign + rest && sign in {"", "+", "-"} && rest != "" && rest[0] != '+' && rest[0] != '-'
    ensures ExtractSign(s) == (rest, sign == "-")
  {
    if sign == "" {
      assert s == rest;
    } else {
      assert s[1..] == rest && s[0] == sign[0];
    }
  }

  lemma PrefixUnique(base: int, prefix: string, b: nat, ds: string)
    requires LegalBase(base) && Numeral(prefix + ds, base, "", prefix, b, ds)
    ensures ExtractBase(prefix + ds, base) == (ds, b)
  {
    hide Worth;
    var rest := prefix + ds;
    if prefix != "" {
      assert rest[..2] == prefix && rest[2..] == ds;
    } else {
      assert rest == ds;
      if StartsWithHexPrefix(ds) {
        assert ds[..2][0] == ds[0] && ds[..2][1] == ds[1];
        HexMarkIsNoDigit(ds[1]);
      }
    }
  }

  lemma HexMarkIsNoDigit(c: char)
    requires c == 'x' || c == 'X'
    ensures Worth(c) == 33
  {
    hide Worth;
    DigitIsPlace(c);
  }

  lemma SignIsNoDigit(c: char)
    ensures c == '+' || c == '-' ==> Worth(c) == 36
  {
    hide Worth;
    DigitIsPlace(c);
  }

  lemma ExtractUnique(s: string, base: int, sign: string, prefix: string, b: nat, ds: string)
    requires LegalBase(base) && Numeral(s, base, sign, prefix, b, ds)
    ensures ExtractSign(s) == (prefix + ds, sign == "-")
    ensures ExtractBase(prefix + ds, base) == (ds, b)
  {
    hide Worth;
    var rest := prefix + ds;
    SignIsNoDigit(ds[0]);
    assert Worth(ds[0]) < b <= 36;
    assert rest[0] == (if prefix == "" then ds[0] else '0');
    assert s == sign + rest && "" + prefix + ds == rest;
    SignUnique(s, sign, rest);
    PrefixUnique(base, prefix, b, ds);
  }

  // ----- the digit loops -----

  function TruncDiv(a: int, b: nat): int
    requires b > 0
  {
    if a >= 0 then a / b else -((-a) / b)
  }

  lemma DivBounds(max: nat, b: nat)
    requires b > 0
    ensures 0 <= max / b <= max && max / b * b <= max < (max / b + 1) * b
  {
    var q := max / b;
    assert max == q * b + max % b;
    assert (q + 1) * b == q * b + b;
    MulGrows(q, b);
  }

  /** The division test is the multiplication test without the overflow. */
  lemma OverflowCheck(max: nat, n: nat, b: nat)
    requires b > 0
    ensures 0 <= TruncDiv(max, b) <= max && 0 <= n * b
    ensures TruncDiv(max, b) < n <==> n * b > max
  {
    DivBounds(max, b);
    var q := max / b;
    MulGrows(n, b);
    if n <= q {
      MulMonotonic(n, q, b);
    } else {
      MulMonotonic(q + 1, n, b);
    }
  }

  lemma MulMonotonic(x: int, y: int, b: nat)
    requires x <= y
    ensures x * b <= y * b
  {
  }

  /** The same below zero, where the division truncates upwards. */
  lemma UnderflowCheck(min: int, n: int, b: nat)
    requires b > 0 && min <= 0 && n <= 0
    ensures min <= TruncDiv(min, b) <= 0 && n * b == -((-n) * b) <= 0
    ensures TruncDiv(min, b) > n <==> n * b < min
  {
    OverflowCheck(-min, -n, b);
    assert TruncDiv(min, b) == -TruncDiv(-min, b);
    assert n * b == -((-n) * b);
  }

  lemma MulGrows(n: nat, b: nat)
    requires b > 0
    ensures n * b >= n
  {
  }

  lemma {:induction false} ValueGrows(ds: string, i: nat, b: nat)
    requires i <= |ds| && b > 0
    ensures Value(ds[..i], b) <= Value(ds, b)
    decreases |ds| - i
  {
    if i == |ds| {
      assert ds[..i] == ds;
    } else {
      hide Value, Worth;
      ValueGrows(ds, i + 1, b);
      assert ds[..i + 1] == ds[..i] + [ds[i]];
      ValueSnoc(ds[..i], ds[i], b);
      MulGrows(Value(ds[..i], b), b);
    }
  }

  /** The value of the digits, or why it does not fit below the bound. */
  predicate Digits(str: string, b: nat, bound: int, r: Result, ok: Result) {
    && (r.Ok? <==> ValidDigits(str, b) && Value(str, b) <= bound)
    && (r.Ok? ==> r == ok) && r != BadBase
  }

  /** One more digit: the value of the longer prefix, which only grows from there on. */
  lemma NextDigit(str: string, i: nat, b: nat)
    requires i < |str| && b > 0
    ensures Value(str[..i + 1], b) == Value(str[..i], b) * b + Worth(str[i]) <= Value(str, b)
    ensures ValidDigits(str[..i + 1], b) <==> ValidDigits(str[..i], b) && Worth(str[i]) < b
    ensures ValidDigits(str, b) ==> Worth(str[i]) < b
  {
    hide Value, Worth;
    assert str[..i + 1] == str[..i] + [str[i]];
    ValueSnoc(str[..i], str[i], b);
    ValueGrows(str, i + 1, b);
    forall k | 0 <= k < i ensures str[..i + 1][k] == str[..i][k] {
    }
    assert str[..i + 1][i] == str[i];
  }

  method ParseNonNegative(t: NumberType, str: string, base: nat) returns (r: Result)
    requires t.Valid() && 2 <= base <= 36
    ensures Digits(str, base, t.max, r, Ok(Value(str, base)))
  {
    hide Value, Worth, ValidDigits, TruncDiv;
    NoDigitsYet(str, base);
    var n := 0;
    for i := 0 to |str|
      invariant t.Holds(n) && n == Value(str[..i], base)
      invariant ValidDigits(str[..i], base)
    {
      NextDigit(str, i, base);
      OverflowCheck(t.max, n, base);
      DigitIsPlace(str[i]);
      var digitValue := t.Narrow(DigitValue(str[i]));
      if digitValue >= base {
        return BadDigit;
      }
      if t.Narrow(TruncDiv(t.max, base)) < n || t.Narrow(t.max - t.Narrow(n * base)) < digitValue {
        return Overflow;
      }
      n := t.Narrow(n * base);
      n := t.Narrow(n + digitValue);
    }
    assert str[..|str|] == str;
    return Ok(n);
  }

  method ParseNegative(t: NumberType, str: string, base: nat) returns (r: Result)
    requires t.Valid() && t.IsSigned() && 2 <= base <= 36
    ensures Digits(str, base, -t.min, r, Ok(-Value(str, base)))
  {
    hide Value, Worth, ValidDigits, TruncDiv;
    NoDigitsYet(str, base);
    var n := 0;
    for i := 0 to |str|
      invariant t.Holds(n) && n == -Value(str[..i], base)
      invariant ValidDigits(str[..i], base)
    {
      NextDigit(str, i, base);
      UnderflowCheck(t.min, n, base);
      DigitIsPlace(str[i]);
      var digitValue := t.Narrow(DigitValue(str[i]));
      if digitValue >= base {
        return BadDigit;
      }
      if t.Narrow(TruncDiv(t.min, base)) > n || t.Narrow(t.min - t.Narrow(n * base)) > t.Narrow(-digitValue) {
        return Underflow;
      }
      n := t.Narrow(n * base);
      n := t.Narrow(n - digitValue);
    }
    assert str[..|str|] == str;
    return Ok(n);
  }

  lemma NoDigitsYet(str: string, b: nat)
    ensures Value(str[..0], b) == 0 && ValidDigits(str[..0], b)
  {
    assert str[..0] == "";
  }

  /** Exact parsing: OK if and only if the string denotes a value of the type, and that value. */
  method ParseNumberFromStringWithBase(t: NumberType, stringValue: string, base: int) returns (r: Result)
    requires t.Valid()
    ensures r == BadBase <==> !LegalBase(base)
    ensures LegalBase(base) ==> forall v :: r == Ok(v) <==> Denotes(t, stringValue, base, v)
  {
    hide Value, ValidDigits;
    if base == 1 || base < 0 || base > 36 {
      return BadBase;
    }
    var (rest, isNegative) := ExtractSign(stringValue);
    var (str, b) := ExtractBase(rest, base);
    if str == "" {
      r := NoDigits;
    } else if isNegative {
      if t.IsSigned() {
        r := ParseNegative(t, str, b);
      } else {
        r := NegativeValue;
      }
    } else {
      r := ParseNonNegative(t, str, b);
    }
    Exact(t, stringValue, base, r);
  }

  /** What the digit loops return on the extracted digits is what the whole string denotes. */
  lemma Exact(t: NumberType, s: string, base: int, r: Result)
    requires t.Valid() && LegalBase(base) && r != BadBase
    requires var (rest, neg) := ExtractSign(s);
      var (str, b) := ExtractBase(rest, base);
      if str == "" || (neg && !t.IsSigned()) then !r.Ok?
      else if neg then Digits(str, b, -t.min, r, Ok(-Value(str, b)))
      else Digits(str, b, t.max, r, Ok(Value(str, b)))
    ensures forall v :: r == Ok(v) <==> Denotes(t, s, base, v)
  {
    hide Value, ValidDigits, ExtractSign, ExtractBase;
    var (rest, neg) := ExtractSign(s);
    var (str, b) := ExtractBase(rest, base);
    var sign, prefix := ExtractSound(s, base);
    forall v ensures r == Ok(v) <==> Denotes(t, s, base, v) {
      if r == Ok(v) {
        assert Numeral(s, base, sign, prefix, b, str) && v == Signed(sign, Value(str, b));
      }
      if Denotes(t, s, base, v) {
        var sg, pf, b', ds :|
          Numeral(s, base, sg, pf, b', ds) && v == Signed(sg, Value(ds, b'))
          && t.Holds(v) && (sg == "-" ==> t.IsSigned());
        ExtractUnique(s, base, sg, pf, b', ds);
      }
    }
  }

  // ----- decimal numerals -----

  function DigitChar(d: nat): (c: char)
    requires d < 10
    ensures Worth(c) == d
  {
    NumeralsCodes(d);
    DigitIsPlace(Numerals()[d]);
    Numerals()[d]
  }

  /** numStr: the decimal numeral of a number that is not negative. */
  function Decimal(n: nat): (s: string)
    ensures s != "" && ValidDigits(s, 10)
  {
    if n < 10 then [DigitChar(n)] else Decimal(n / 10) + [DigitChar(n % 10)]
  }

  lemma DecimalUnfolds(n: nat)
    ensures Decimal(n) == (if n < 10 then "" else Decimal(n / 10)) + [DigitChar(n % 10)]
  {
    hide DigitChar, Worth;
  }

  lemma {:induction false} DecimalValue(n: nat)
    ensures Value(Decimal(n), 10) == n
  {
    hide Value, Worth;
    if n < 10 {
      ValueSnoc("", DigitChar(n), 10);
      assert "" + [DigitChar(n)] == Decimal(n);
      EmptyValue(10);
    } else {
      DecimalValue(n / 10);
      ValueSnoc(Decimal(n / 10), DigitChar(n % 10), 10);
    }
  }

  lemma EmptyValue(b: nat)
    ensures Value("", b) == 0
  {
  }

  /** Parsing numStr(n) in base 10 gives back n, in every type that holds n. */
  lemma DecimalDenotes(t: NumberType, n: nat)
    requires t.Valid() && t.Holds(n)
    ensures Denotes(t, Decimal(n), 10, n)
  {
    hide Value, Decimal;
    DecimalValue(n);
    assert "" + "" + Decimal(n) == Decimal(n);
    assert Numeral(Decimal(n), 10, "", "", 10, Decimal(n));
    assert n == Signed("", Value(Decimal(n), 10));
  }
}
