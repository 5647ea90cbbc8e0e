/**
escape: the text of a string as it stands inside JSON quotes, and its decoding
by the string rules of section 7 of RFC 8259.
*/
module Escape {
  import opened Bson

  const QUOTE: Byte := 0x22
  const BACKSLASH: Byte := 0x5c
  const SLASH: Byte := 0x2f
  const LOWER_B: Byte := 0x62
  const LOWER_F: Byte := 0x66
  const LOWER_N: Byte := 0x6e
  const LOWER_R: Byte := 0x72
  const LOWER_T: Byte := 0x74
  const LOWER_U: Byte := 0x75
  const ZERO: Byte := 0x30

  // ----- escaping -----

  function HexChar(d: nat): Byte
    requires d < 16
  {
    if d < 10 then 0x30 + d else 0x61 + (d - 10)
  }

  /** What one byte becomes; bytes from 0x80 on are negative as char and pass through. */
  function EscapeByte(c: Byte, escapeSlash: bool): Bytes {
    if c == QUOTE then [BACKSLASH, QUOTE]
    else if c == BACKSLASH then [BACKSLASH, BACKSLASH]
    else if c == SLASH then (if escapeSlash then [BACKSLASH, SLASH] else [SLASH])
    else if c == 0x08 then [BACKSLASH, LOWER_B]
    else if c == 0x0c then [BACKSLASH, LOWER_F]
    else if c == 0x0a then [BACKSLASH, LOWER_N]
    else if c == 0x0d then [BACKSLASH, LOWER_R]
    else if c == 0x09 then [BACKSLASH, LOWER_T]
    else if c <= 0x1f then [BACKSLASH, LOWER_U, ZERO, ZERO, HexChar(c / 16), HexChar(c % 16)]
    else [c]
  }

  function Escaped(s: Bytes, escapeSlash: bool): Bytes {
    if s == [] then [] else EscapeByte(s[0], escapeSlash) + Escaped(s[1..], escapeSlash)
  }

  // ----- decoding -----

  datatype Option = None | Some(text: Bytes)

  function HexValue(c: Byte): nat {
    if 0x30 <= c <= 0x39 then c - 0x30
    else if 0x61 <= c <= 0x66 then c - 0x61 + 10
    else if 0x41 <= c <= 0x46 then c - 0x41 + 10
    else 16
  }

  /** The UTF-8 bytes of a code unit that is no surrogate. */
  function Utf8(u: nat): Bytes
    requires u < 0x10000
  {
    if u < 0x80 then [u]
    else if u < 0x800 then [0xc0 + u / 64, 0x80 + u % 64]
    else [0xe0 + u / 4096, 0x80 + u / 64 % 64, 0x80 + u % 64]
  }

  function Prepend(head: Bytes, rest: Option): Option {
    if rest.None? then None else Some(head + rest.text)
  }

  /** What the byte behind a backslash stands for, where it stands for one byte. */
  function ShortEscape(c: Byte): Bytes {
    if c == QUOTE || c == BACKSLASH || c == SLASH then [c]
    else if c == LOWER_B then [0x08]
    else if c == LOWER_F then [0x0c]
    else if c == LOWER_N then [0x0a]
    else if c == LOWER_R then [0x0d]
    else if c == LOWER_T then [0x09]
    else []
  }

  /** The characters of a JSON string; None for a bare quote, a control byte or a stray backslash. */
  function Unescape(t: Bytes): Option {
    if t == [] then Some([])
    else if t[0] == QUOTE || t[0] < 0x20 then None
    else if t[0] != BACKSLASH then Prepend([t[0]], Unescape(t[1..]))
    else if |t| < 2 then None
    else if t[1] != LOWER_U then
      if ShortEscape(t[1]) == [] then None else Prepend(ShortEscape(t[1]), Unescape(t[2..]))
    else if |t| < 6 then None
    else
      var h0, h1, h2, h3 := HexValue(t[2]), HexValue(t[3]), HexValue(t[4]), HexValue(t[5]);
      if h0 == 16 || h1 == 16 || h2 == 16 || h3 == 16 then None
      else
        var u := ((h0 * 16 + h1) * 16 + h2) * 16 + h3;
        if 0xd800 <= u < 0xe000 then None else Prepend(Utf8(u), Unescape(t[6..]))
  }

  // ----- the loop -----

  method EscapeString(s: Bytes, escapeSlash: bool) returns (ret: Bytes)
    ensures ret == Escaped(s, escapeSlash)
    ensures Unescape(ret) == Some(s)
    ensures forall i :: 0 <= i < |ret| ==> ret[i] >= 0x20
  {
    hide EscapeByte;
    ret := [];
    for i := 0 to |s|
      invariant ret + Escaped(s[i..], escapeSlash) == Escaped(s, escapeSlash)
    {
      assert s[i..][1..] == s[i + 1..];
      ret := ret + EscapeByte(s[i], escapeSlash);
    }
    assert s[|s|..] == [];
    RoundTrip(s, escapeSlash);
    NoControlBytes(s, escapeSlash);
  }

  lemma ShortStep(t: Bytes, rest: Bytes, c: Byte)
    requires t == [BACKSLASH, c] + rest && c != LOWER_U && ShortEscape(c) != []
    ensures Unescape(t) == Prepend(ShortEscape(c), Unescape(rest))
  {
    assert t[2..] == rest;
  }

  lemma UnicodeStep(c: Byte, rest: Bytes)
    requires c < 0x20
    ensures Unescape([BACKSLASH, LOWER_U, ZERO, ZERO, HexChar(c / 16), HexChar(c % 16)] + rest) ==
            Prepend([c], Unescape(rest))
  {
    var t := [BACKSLASH, LOWER_U, ZERO, ZERO, HexChar(c / 16), HexChar(c % 16)] + rest;
    assert t[6..] == rest;
    assert HexValue(t[4]) == c / 16 && HexValue(t[5]) == c % 16;
  }

  lemma PlainStep(c: Byte, rest: Bytes)
    requires c >= 0x20 && c != QUOTE && c != BACKSLASH
    ensures Unescape([c] + rest) == Prepend([c], Unescape(rest))
  {
    assert ([c] + rest)[1..] == rest;
  }

  /** Decoding takes one escaped byte off the front and gives the byte back. */
  lemma UnescapeStep(c: Byte, escapeSlash: bool, rest: Bytes)
    ensures Unescape(EscapeByte(c, escapeSlash) + rest) == Prepend([c], Unescape(rest))
  {
    hide Unescape;
    var t := EscapeByte(c, escapeSlash) + rest;
    if |EscapeByte(c, escapeSlash)| == 2 {
      ShortStep(t, rest, EscapeByte(c, escapeSlash)[1]);
    } else if |EscapeByte(c, escapeSlash)| == 1 {
      PlainStep(c, rest);
    } else {
      UnicodeStep(c, rest);
    }
  }

  lemma UnescapeEmpty()
    ensures Unescape([]) == Some([])
  {
  }

  /** Decoding the escaped text gives the text back, byte for byte, in either slash mode. */
  lemma {:induction false} RoundTrip(s: Bytes, escapeSlash: bool)
    ensures Unescape(Escaped(s, escapeSlash)) == Some(s)
  {
    hide EscapeByte, Unescape;
    if s == [] {
      UnescapeEmpty();
    } else {
      RoundTrip(s[1..], escapeSlash);
      UnescapeStep(s[0], escapeSlash, Escaped(s[1..], escapeSlash));
      assert [s[0]] + s[1..] == s;
    }
  }

  /** So no two texts are escaped alike. */
  lemma EscapeInjective(s: Bytes, t: Bytes, escapeSlash: bool, other: bool)
    requires Escaped(s, escapeSlash) == Escaped(t, other)
    ensures s == t
  {
    RoundTrip(s, escapeSlash);
    RoundTrip(t, other);
  }

  lemma {:induction false} NoControlBytes(s: Bytes, escapeSlash: bool)
    ensures forall i :: 0 <= i < |Escaped(s, escapeSlash)| ==> Escaped(s, escapeSlash)[i] >= 0x20
  {
    if s != [] {
      NoControlBytes(s[1..], escapeSlash);
      var e := EscapeByte(s[0], escapeSlash);
      assert forall i :: 0 <= i < |e| ==> e[i] >= 0x20;
    }
  }

  /** Bytes that may stand in a JSON string as they are, slashes by the mode. */
  predicate Passes(c: Byte, escapeSlash: bool) {
    c >= 0x20 && c != 0x22 && c != 0x5c && (c == 0x2f ==> !escapeSlash)
  }

  /** Nothing is escaped that need not be: a text stays as it is exactly when all its bytes may. */
  lemma {:induction false} EscapedIffNeeded(s: Bytes, escapeSlash: bool)
    ensures |Escaped(s, escapeSlash)| >= |s|
    ensures Escaped(s, escapeSlash) == s <==> forall i :: 0 <= i < |s| ==> Passes(s[i], escapeSlash)
  {
    if s != [] {
      EscapedIffNeeded(s[1..], escapeSlash);
      var e, rest := EscapeByte(s[0], escapeSlash), Escaped(s[1..], escapeSlash);
      assert s == [s[0]] + s[1..];
      assert |e| == 1 <==> Passes(s[0], escapeSlash);
      assert |e| == 1 ==> e == [s[0]] && (e + rest)[1..] == rest;
      if forall i :: 0 <= i < |s| ==> Passes(s[i], escapeSlash) {
        assert forall i :: 0 <= i < |s[1..]| ==> s[1..][i] == s[i + 1];
      }
      if forall i :: 0 <= i < |s[1..]| ==> Passes(s[1..][i], escapeSlash) {
        assert forall i :: 1 <= i < |s| ==> s[i] == s[1..][i - 1];
      }
    }
  }

  /** With escaped slashes, every slash has a backslash in front. */
  lemma {:induction false} SlashesEscaped(s: Bytes, i: nat)
    requires i < |Escaped(s, true)| && Escaped(s, true)[i] == 0x2f
    ensures i > 0 && Escaped(s, true)[i - 1] == 0x5c
  {
    var e := EscapeByte(s[0], true);
    if i >= |e| {
      SlashesEscaped(s[1..], i - |e|);
    }
  }

  /** The five control bytes that JSON has a letter for are escaped by that letter. */
  lemma ControlLetters(c: Byte, letter: Byte, rest: Bytes, escapeSlash: bool)
    requires (c == 0x08 && letter == 0x62) || (c == 0x09 && letter == 0x74) || (c == 0x0a && letter == 0x6e)
      || (c == 0x0c && letter == 0x66) || (c == 0x0d && letter == 0x72)
    ensures Escaped([c] + rest, escapeSlash) == [0x5c, letter] + Escaped(rest, escapeSlash)
  {
    assert ([c] + rest)[1..] == rest;
  }
}
