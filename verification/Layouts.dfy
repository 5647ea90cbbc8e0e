/**
Documents of one field, byte by byte. The type codes and the lengths are those
of the BSON specification, written out as numbers; what the validator and the
reader make of the bytes is stated without the encoding of document trees.
*/
module Layouts {
  import opened Bson
  import opened Decoding
  import opened Reader
  import opened ValidatorMachine
  import opened ValidatorProof

  /** Four bytes that hold n, the least significant one first. */
  predicate Counts(s: Bytes, n: int) {
    |s| == 4 && n == s[0] as int + 256 * s[1] as int + 65536 * s[2] as int + 16777216 * s[3] as int
  }

  /** A document: its size, one field and the closing zero. */
  function OneField(size: Bytes, code: Byte, name: Bytes, value: Bytes): Bytes {
    size + [code] + name + [0] + value + [0]
  }

  /** The size field says how long the document is. */
  predicate Framed(size: Bytes, name: Bytes, value: Bytes) {
    Counts(size, |name| + |value| + 7) && |name| + |value| + 7 < TWO31
  }

  predicate IsFixedCode(code: Byte) { code in {1, 6, 7, 8, 9, 10, 16, 17, 18, 127, 255} }

  /** Bytes in the value of a type of fixed length. */
  function PayloadSize(code: Byte): nat
    requires IsFixedCode(code)
  {
    if code == 1 then 8         // double
    else if code == 7 then 12   // object id
    else if code == 8 then 1    // boolean
    else if code == 9 then 8    // date
    else if code == 16 then 4   // 32-bit integer
    else if code == 17 then 8   // timestamp
    else if code == 18 then 8   // 64-bit integer
    else 0                      // undefined, null, MaxKey, MinKey
  }

  // ----- a field that is right -----

  lemma CountsIsLe32(s: Bytes, n: int)
    requires Counts(s, n) && n < TWO32
    ensures Le32(n) == s
  {
    Le32Digits(n, s[0], s[1], s[2], s[3]);
  }

  lemma OneFieldIs(size: Bytes, name: Bytes, v: Value)
    requires Framed(size, name, EncodeValue(v))
    ensures OneField(size, TypeOf(v), name, EncodeValue(v)) == EncodeDoc(Field(name, v, Empty))
  {
    hide EncodeValue, Le32;
    var value := EncodeValue(v);
    CountsIsLe32(size, |name| + |value| + 7);
    var d := Field(name, v, Empty);
    assert EncodeList(d) == EncodeElement(name, v) + [] == EncodeElement(name, v);
    assert |EncodeElement(name, v)| == 2 + |name| + |value|;
    assert OneField(size, TypeOf(v), name, value) == size + ([TypeOf(v)] + (name + [0]) + value + [0]);
  }

  /** The bytes are accepted, hold a document, and the field's size reads as its length. */
  predicate Fine(buf: Bytes, name: Bytes, value: Bytes) {
    |buf| > 4 && Run(buf, Start) == Accept && ElementSize(buf, 4) == Sized(2 + |name| + |value|)
  }

  lemma FieldFine(size: Bytes, name: Bytes, v: Value)
    requires NulFree(name) && GoodValue(v) && Framed(size, name, EncodeValue(v))
    ensures var buf := OneField(size, TypeOf(v), name, EncodeValue(v));
      Fine(buf, name, EncodeValue(v)) && HasDocument(buf)
  {
    hide EncodeValue, Run, ElementSize, GoodValue, OneField;
    OneFieldIs(size, name, v);
    var d := Field(name, v, Empty);
    var buf := EncodeDoc(d);
    assert GoodDoc(d);
    OneFieldSize(name, v);
    assert At(buf, 0, EncodeDoc(d));
    RunRefinesGrammar(buf);
    DocIsList(buf, 0, d);
    OnListSteps(buf, 4, |buf| - 1, d);
  }

  lemma OneFieldSize(name: Bytes, v: Value)
    ensures |EncodeElement(name, v)| == 2 + |name| + |EncodeValue(v)|
    ensures |EncodeDoc(Field(name, v, Empty))| == 7 + |name| + |EncodeValue(v)|
  {
    hide EncodeValue;
    assert EncodeList(Field(name, v, Empty)) == EncodeElement(name, v) + [];
  }

  // ----- values of fixed length -----

  /** A document that fills the bytes and starts with this field has a value of the type's length in it. */
  lemma FixedFieldShape(size: Bytes, code: Byte, name: Bytes, payload: Bytes, d: Doc)
    requires IsFixedCode(code) && NulFree(name) && Framed(size, name, payload)
    requires Representable(d) && At(OneField(size, code, name, payload), 0, EncodeDoc(d))
    ensures |payload| == PayloadSize(code) || |payload| > PayloadSize(code) + 1
  {
    hide EncodeValue, ElementSize, GoodValue, EncodeElement, FieldName;
    var buf := OneField(size, code, name, payload);
    DocIsList(buf, 0, d);
    SizeRead(size, code, name, payload);
    OnListSteps(buf, 4, |buf| - 1, d);
    assert buf[4] == code;
    NameRead(size, code, name, payload);
    FixedLength(d.value, code);
    ListOfOne(d.rest);
    assert |EncodeList(d)| == |EncodeElement(d.name, d.value)| + |EncodeList(d.rest)|;
    OneFieldSize(d.name, d.value);
  }

  lemma SizeRead(size: Bytes, code: Byte, name: Bytes, payload: Bytes)
    requires Framed(size, name, payload)
    ensures var buf := OneField(size, code, name, payload);
      |buf| == |name| + |payload| + 7 && I32(buf, 0) == |buf|
  {
    hide I32;
    var buf := OneField(size, code, name, payload);
    CountsIsLe32(size, |buf|);
    assert buf[0..4] == size;
    AtI32(buf, 0, |buf|);
  }

  lemma NameRead(size: Bytes, code: Byte, name: Bytes, payload: Bytes)
    requires NulFree(name) && |size| == 4 && code != 0
    ensures var buf := OneField(size, code, name, payload); buf[4] == code && FieldName(buf, 4) == name
  {
    hide FindNul;
    var buf := OneField(size, code, name, payload);
    assert forall i :: 0 <= i < |name| ==> buf[5 + i] == name[i];
    assert buf[5 + |name|] == 0;
    FindNulUnique(buf, 5, 5 + |name|);
    assert buf[5..5 + |name|] == name;
  }

  lemma FixedLength(v: Value, code: Byte)
    requires GoodValue(v) && TypeOf(v) == code && IsFixedCode(code)
    ensures |EncodeValue(v)| == PayloadSize(code)
  {
  }

  /** No element list is one byte long. */
  lemma ListOfOne(d: Doc)
    ensures |EncodeList(d)| != 1
  {
    if d.Field? {
      assert |EncodeElement(d.name, d.value)| >= 2;
    }
  }

  /**
   A field of a fixed-length type: with a payload of the type's length the
   bytes are a document, which is accepted and sized; with a shorter one, or
   with one byte too many, they hold no document.
   */
  lemma FixedFieldIff(size: Bytes, code: Byte, name: Bytes, payload: Bytes)
    requires IsFixedCode(code) && NulFree(name) && Framed(size, name, payload)
    requires |payload| <= PayloadSize(code) + 1
    ensures var buf := OneField(size, code, name, payload);
      && (HasDocument(buf) <==> |payload| == PayloadSize(code))
      && (Fine(buf, name, payload) <==> |payload| == PayloadSize(code))
  {
    hide Run, OneField, Framed, ElementSize, Representable;
    var buf := OneField(size, code, name, payload);
    if |payload| == PayloadSize(code) {
      FixedIsGood(code, payload);
      FieldFine(size, name, Fixed(code, payload));
    } else {
      if d :| Representable(d) && At(buf, 0, EncodeDoc(d)) {
        FixedFieldShape(size, code, name, payload, d);
      }
      RunRefinesGrammar(buf);
    }
  }

  lemma FixedIsGood(code: Byte, payload: Bytes)
    requires IsFixedCode(code) && |payload| == PayloadSize(code)
    ensures var v := Fixed(code, payload); GoodValue(v) && TypeOf(v) == code && EncodeValue(v) == payload
  {
  }

  // ----- values with a length of their own -----

  /** Strings, code and symbols: length with the terminator, text, zero. */
  lemma TextField(size: Bytes, code: Byte, name: Bytes, count: Bytes, text: Bytes)
    requires code in {2, 13, 14} && NulFree(name) && Counts(count, |text| + 1)
    requires Framed(size, name, count + text + [0])
    ensures Fine(OneField(size, code, name, count + text + [0]), name, count + text + [0])
  {
    hide Run, OneField, ElementSize, Le32;
    CountsIsLe32(count, |text| + 1);
    var v := Text(code, text);
    assert EncodeValue(v) == count + text + [0];
    FieldFine(size, name, v);
  }

  /** A reference: a string and twelve bytes. */
  lemma DBRefField(size: Bytes, name: Bytes, count: Bytes, ns: Bytes, oid: Bytes)
    requires NulFree(name) && Counts(count, |ns| + 1) && |oid| == 12
    requires Framed(size, name, count + ns + [0] + oid)
    ensures Fine(OneField(size, 12, name, count + ns + [0] + oid), name, count + ns + [0] + oid)
  {
    hide Run, OneField, ElementSize, Le32;
    CountsIsLe32(count, |ns| + 1);
    var v := DBRef(ns, oid);
    assert EncodeValue(v) == count + ns + [0] + oid;
    FieldFine(size, name, v);
  }

  /** Binary data: length, subtype, bytes. */
  lemma BinaryField(size: Bytes, name: Bytes, count: Bytes, subtype: Byte, data: Bytes)
    requires NulFree(name) && Counts(count, |data|)
    requires Framed(size, name, count + [subtype] + data)
    ensures Fine(OneField(size, 5, name, count + [subtype] + data), name, count + [subtype] + data)
  {
    hide Run, OneField, ElementSize, Le32;
    CountsIsLe32(count, |data|);
    var v := Binary(subtype, data);
    assert EncodeValue(v) == count + [subtype] + data;
    FieldFine(size, name, v);
  }

  /** A regular expression: two C strings. */
  lemma RegexField(size: Bytes, name: Bytes, pattern: Bytes, options: Bytes)
    requires NulFree(name) && NulFree(pattern) && NulFree(options)
    requires Framed(size, name, pattern + [0] + options + [0])
    ensures Fine(OneField(size, 11, name, pattern + [0] + options + [0]), name, pattern + [0] + options + [0])
  {
    hide Run, OneField, ElementSize;
    var v := Regex(pattern, options);
    assert EncodeValue(v) == pattern + [0] + options + [0];
    FieldFine(size, name, v);
  }

  /** Objects and arrays: the bytes of a document. */
  lemma ObjectField(size: Bytes, code: Byte, name: Bytes, d: Doc)
    requires code in {3, 4} && NulFree(name) && GoodDoc(d) && Framed(size, name, EncodeDoc(d))
    ensures Fine(OneField(size, code, name, EncodeDoc(d)), name, EncodeDoc(d))
  {
    hide Run, OneField, ElementSize, EncodeDoc;
    FieldFine(size, name, Embedded(code, d));
  }

  /** Code with scope: total length, string, document. */
  lemma CodeWScopeField(size: Bytes, name: Bytes, total: Bytes, count: Bytes, code: Bytes, scope: Doc)
    requires NulFree(name) && GoodDoc(scope) && Counts(count, |code| + 1)
    requires Counts(total, |total + count + code + [0] + EncodeDoc(scope)|)
    requires Framed(size, name, total + count + code + [0] + EncodeDoc(scope))
    ensures var value := total + count + code + [0] + EncodeDoc(scope);
      Fine(OneField(size, 15, name, value), name, value)
  {
    hide Run, OneField, ElementSize, EncodeDoc, Le32;
    CountsIsLe32(count, |code| + 1);
    var v := CodeWScope(code, scope);
    CountsIsLe32(total, CodeWScopeSize(code, scope));
    assert EncodeValue(v) == total + count + code + [0] + EncodeDoc(scope);
    FieldFine(size, name, v);
  }

  // ----- documents cut short -----

  /** No proper beginning of a document is one. */
  lemma PrefixRejected(d: Doc, k: nat)
    requires Representable(d) && k < |EncodeDoc(d)|
    ensures !HasDocument(EncodeDoc(d)[..k]) && Run(EncodeDoc(d)[..k], Start) != Accept
  {
    hide Run, EncodeDoc, Representable;
    var whole := EncodeDoc(d);
    var buf := whole[..k];
    if e :| Representable(e) && At(buf, 0, EncodeDoc(e)) {
      assert whole[0..|EncodeDoc(e)|] == buf[0..|EncodeDoc(e)|];
      assert At(whole, 0, EncodeDoc(e)) && At(whole, 0, EncodeDoc(d));
      DocUnique(whole, 0, d, e);
    }
    RunRefinesGrammar(buf);
  }
}
