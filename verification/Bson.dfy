/**
The BSON document format as one recursive encoding.

A document is a tree (`Doc`); `EncodeDoc` writes it out by the productions of
version 1.0 of the BSON specification (document, e_list, element, string,
binary, code_w_s), which the driver restates in bsonobj.h. The validator, the
reader, the builder and the field lookup are all related to this encoding.
*/
module Bson {
  type Byte = x: int | 0 <= x < 256
  type Bytes = seq<Byte>

  const TWO31: int := 0x8000_0000
  const TWO32: int := 0x1_0000_0000

  // ----- element type codes (bsontypes.h); MinKey is the signed char -1 -----

  const EOO: Byte := 0
  const NUMBER_DOUBLE: Byte := 1
  const STRING: Byte := 2
  const OBJECT: Byte := 3
  const ARRAY: Byte := 4
  const BIN_DATA: Byte := 5
  const UNDEFINED: Byte := 6
  const JST_OID: Byte := 7
  const BOOL: Byte := 8
  const DATE: Byte := 9
  const JST_NULL: Byte := 10
  const REG_EX: Byte := 11
  const DB_REF: Byte := 12
  const CODE: Byte := 13
  const SYMBOL: Byte := 14
  const CODE_W_SCOPE: Byte := 15
  const NUMBER_INT: Byte := 16
  const TIMESTAMP: Byte := 17
  const NUMBER_LONG: Byte := 18
  const MAX_KEY: Byte := 127
  const MIN_KEY: Byte := 255

  /** Types whose value has the same length whatever the value is. */
  predicate IsFixed(tag: Byte) {
    tag in {MIN_KEY, MAX_KEY, JST_NULL, UNDEFINED, BOOL, NUMBER_INT,
            NUMBER_DOUBLE, NUMBER_LONG, TIMESTAMP, DATE, JST_OID}
  }

  function FixedSize(tag: Byte): nat
    requires IsFixed(tag)
  {
    if tag in {MIN_KEY, MAX_KEY, JST_NULL, UNDEFINED} then 0
    else if tag == BOOL then 1
    else if tag == NUMBER_INT then 4
    else if tag == JST_OID then 12
    else 8
  }

  predicate IsText(tag: Byte) { tag in {STRING, CODE, SYMBOL} }

  predicate IsEmbedded(tag: Byte) { tag in {OBJECT, ARRAY} }

  // ----- 32-bit little-endian integers -----

  /** The low 32 bits of n, least significant byte first. */
  function Le32(n: int): (r: Bytes)
    ensures |r| == 4
  {
    [n % 256, n / 256 % 256, n / 65536 % 256, n / 16777216 % 256]
  }

  function FromBytes(b0: int, b1: int, b2: int, b3: int): int {
    b0 + 256 * b1 + 65536 * b2 + 16777216 * b3
  }

  function U32(bs: Bytes, p: nat): (n: int)
    requires p + 4 <= |bs|
    ensures 0 <= n < TWO32
  {
    FromBytes(bs[p], bs[p + 1], bs[p + 2], bs[p + 3])
  }

  /** Two's complement reading of the low 32 bits of n. */
  function Wrap32(n: int): (r: int)
    ensures -TWO31 <= r < TWO31
    ensures -TWO31 <= n < TWO31 ==> r == n
    ensures (r - n) % TWO32 == 0
  {
    var m := n % TWO32;
    if m < TWO31 then m else m - TWO32
  }

  function I32(bs: Bytes, p: nat): (n: int)
    requires p + 4 <= |bs|
    ensures -TWO31 <= n < TWO31
  {
    Wrap32(U32(bs, p))
  }

  // ----- documents -----

  datatype Value =
    | Fixed(tag: Byte, raw: Bytes)
    | Text(tag: Byte, text: Bytes)
    | DBRef(ns: Bytes, oid: Bytes)
    | Binary(subtype: Byte, data: Bytes)
    | Regex(pattern: Bytes, options: Bytes)
    | Embedded(tag: Byte, doc: Doc)
    | CodeWScope(code: Bytes, scope: Doc)

  datatype Doc = Empty | Field(name: Bytes, value: Value, rest: Doc)

  function TypeOf(v: Value): Byte {
    match v
    case Fixed(tag, _) => tag
    case Text(tag, _) => tag
    case DBRef(_, _) => DB_REF
    case Binary(_, _) => BIN_DATA
    case Regex(_, _) => REG_EX
    case Embedded(tag, _) => tag
    case CodeWScope(_, _) => CODE_W_SCOPE
  }

  predicate NulFree(s: Bytes) { forall i :: 0 <= i < |s| ==> s[i] != 0 }

  /** Trees that are documents: names and regexes are C strings, fixed parts have their length. */
  predicate GoodValue(v: Value) {
    match v
    case Fixed(tag, raw) => IsFixed(tag) && |raw| == FixedSize(tag)
    case Text(tag, _) => IsText(tag)
    case DBRef(_, oid) => |oid| == 12
    case Binary(_, _) => true
    case Regex(pattern, options) => NulFree(pattern) && NulFree(options)
    case Embedded(tag, doc) => IsEmbedded(tag) && GoodDoc(doc)
    case CodeWScope(_, scope) => GoodDoc(scope)
  }

  predicate GoodDoc(d: Doc) {
    match d
    case Empty => true
    case Field(name, value, rest) => NulFree(name) && GoodValue(value) && GoodDoc(rest)
  }

  // ----- the encoding -----

  function EncodeCString(s: Bytes): Bytes { s + [0] }

  function EncodeString(s: Bytes): (r: Bytes)
    ensures |r| == |s| + 5
  {
    Le32(|s| + 1) + EncodeCString(s)
  }

  function EncodeValue(v: Value): Bytes
    decreases v, 0
  {
    match v
    case Fixed(_, raw) => raw
    case Text(_, text) => EncodeString(text)
    case DBRef(ns, oid) => EncodeString(ns) + oid
    case Binary(subtype, data) => Le32(|data|) + ([subtype] + data)
    case Regex(pattern, options) => EncodeCString(pattern) + EncodeCString(options)
    case Embedded(_, doc) => EncodeDoc(doc)
    case CodeWScope(code, scope) => Le32(CodeWScopeSize(code, scope)) + (EncodeString(code) + EncodeDoc(scope))
  }

  /** Total length of a code_w_s value: its own length field, a string and a document. */
  function CodeWScopeSize(code: Bytes, scope: Doc): nat
    decreases scope, 2
  {
    4 + (4 + |code| + 1) + |EncodeDoc(scope)|
  }

  function ElementHeader(tag: Byte, name: Bytes): Bytes { [tag] + EncodeCString(name) }

  function EncodeElement(name: Bytes, v: Value): Bytes
    decreases v, 1
  {
    ElementHeader(TypeOf(v), name) + EncodeValue(v)
  }

  function EncodeList(d: Doc): Bytes
    decreases d, 0
  {
    match d
    case Empty => []
    case Field(name, value, rest) => EncodeElement(name, value) + EncodeList(rest)
  }

  function EncodeDoc(d: Doc): (r: Bytes)
    ensures |r| == |EncodeList(d)| + 5
    decreases d, 1
  {
    Le32(|EncodeList(d)| + 5) + (EncodeList(d) + [EOO])
  }

  /** Documents whose size fits the signed 32-bit size field. */
  predicate Representable(d: Doc) { GoodDoc(d) && |EncodeDoc(d)| < TWO31 }

  // ----- reading at an offset -----

  /** The bytes bs stand at offset p of buf. */
  predicate At(buf: Bytes, p: nat, bs: Bytes) {
    p + |bs| <= |buf| && buf[p..p + |bs|] == bs
  }

  lemma AtConcat(buf: Bytes, p: nat, a: Bytes, b: Bytes)
    ensures At(buf, p, a + b) <==> At(buf, p, a) && At(buf, p + |a|, b)
  {
    if At(buf, p, a + b) {
      assert buf[p..p + |a|] == (a + b)[..|a|];
      assert buf[p + |a|..p + |a| + |b|] == (a + b)[|a|..];
    }
    if At(buf, p, a) && At(buf, p + |a|, b) {
      assert buf[p..p + |a + b|] == buf[p..p + |a|] + buf[p + |a|..p + |a| + |b|];
    }
  }

  lemma AtByte(buf: Bytes, p: nat, b: Byte)
    ensures At(buf, p, [b]) <==> p < |buf| && buf[p] == b
  {
    if p < |buf| {
      assert buf[p..p + 1] == [buf[p]];
    }
  }

  lemma Digit(n: nat, q: int, r: Byte)
    ensures n == 256 * q + r <==> q == n / 256 && r == n % 256
  {
  }

  lemma Le32Digits(n: int, b0: Byte, b1: Byte, b2: Byte, b3: Byte)
    requires 0 <= n < TWO32
    ensures Le32(n) == [b0, b1, b2, b3] <==> n == FromBytes(b0, b1, b2, b3)
  {
    var q1 := n / 256;
    var q2 := q1 / 256;
    assert q2 == n / 65536 && q2 / 256 == n / 16777216;
    Digit(q2, b3, b2);
    Digit(q1, b2 + 256 * b3, b1);
    Digit(n, b1 + 256 * (b2 + 256 * b3), b0);
  }

  /** Reading back what Le32 wrote, and the converse. */
  lemma AtLe32(buf: Bytes, p: nat, n: int)
    requires 0 <= n < TWO32
    ensures At(buf, p, Le32(n)) <==> p + 4 <= |buf| && U32(buf, p) == n
  {
    if p + 4 <= |buf| {
      assert buf[p..p + 4] == [buf[p], buf[p + 1], buf[p + 2], buf[p + 3]];
      Le32Digits(n, buf[p], buf[p + 1], buf[p + 2], buf[p + 3]);
    }
  }

  lemma AtI32(buf: Bytes, p: nat, n: int)
    requires 0 <= n < TWO31
    ensures At(buf, p, Le32(n)) <==> p + 4 <= |buf| && I32(buf, p) == n
  {
    AtLe32(buf, p, n);
  }

  /** Index of the first NUL at or after p; |buf| when there is none (memchr). */
  function FindNul(buf: Bytes, p: nat): (q: nat)
    requires p <= |buf|
    ensures p <= q <= |buf|
    ensures forall i :: p <= i < q ==> buf[i] != 0
    ensures q < |buf| ==> buf[q] == 0
    decreases |buf| - p
  {
    if p == |buf| || buf[p] == 0 then p else FindNul(buf, p + 1)
  }

  lemma FindNulUnique(buf: Bytes, p: nat, q: nat)
    requires p <= q < |buf| && buf[q] == 0
    requires forall i :: p <= i < q ==> buf[i] != 0
    ensures FindNul(buf, p) == q
  {
  }

  /** A C string at p is the text before the first NUL from p on. */
  lemma AtCString(buf: Bytes, p: nat, s: Bytes)
    ensures NulFree(s) && At(buf, p, EncodeCString(s)) <==>
            p <= |buf| && FindNul(buf, p) < |buf| && s == buf[p..FindNul(buf, p)]
  {
    AtConcat(buf, p, s, [0]);
    AtByte(buf, p + |s|, 0);
    if NulFree(s) && At(buf, p, EncodeCString(s)) {
      forall i | p <= i < p + |s| ensures buf[i] != 0 {
        assert buf[i] == buf[p..p + |s|][i - p];
      }
      FindNulUnique(buf, p, p + |s|);
    }
  }
}
