/**
woCompare on the bytes: elements are compared where they stand, objects with
two iterators, and the result is that of comparing the document trees.
*/
module Comparing {
  import opened Bson
  import opened Ordering
  import opened Reader

  /** The value v stands at p, and its size fits the size field. */
  predicate Holds(buf: Bytes, p: nat, v: Value) {
    GoodValue(v) && |EncodeValue(v)| < TWO31 && At(buf, p, EncodeValue(v))
  }

  function CStringAt(buf: Bytes, p: nat): Bytes
    requires p <= |buf|
  {
    buf[p..FindNul(buf, p)]
  }

  // ----- what is read -----

  lemma FixedRead(buf: Bytes, p: nat, v: Value)
    requires Holds(buf, p, v) && v.Fixed?
    ensures p + FixedSize(v.tag) <= |buf| && v == Fixed(v.tag, buf[p..p + FixedSize(v.tag)])
  {
  }

  lemma TextRead(buf: Bytes, p: nat, text: Bytes)
    requires |text| + 5 < TWO31 && At(buf, p, EncodeString(text))
    ensures p + 4 <= |buf| && I32(buf, p) == |text| + 1 && p + 4 + I32(buf, p) <= |buf|
    ensures buf[p + 4..p + 4 + I32(buf, p)] == text + [0]
  {
    hide I32;
    AtConcat(buf, p, Le32(|text| + 1), EncodeCString(text));
    AtI32(buf, p, |text| + 1);
  }

  lemma DBRefRead(buf: Bytes, p: nat, v: Value)
    requires Holds(buf, p, v) && v.DBRef?
    ensures ValueSize(buf, DB_REF, p) == Sized(|EncodeValue(v)|)
    ensures p + |EncodeValue(v)| <= |buf| && buf[p..p + |EncodeValue(v)|] == EncodeValue(v)
  {
    hide ValueSize, EncodeValue;
    ValueSizeExact(buf, v, p);
  }

  lemma BinaryRead(buf: Bytes, p: nat, v: Value)
    requires Holds(buf, p, v) && v.Binary?
    ensures p + 4 <= |buf| && I32(buf, p) == |v.data| && p + 5 + I32(buf, p) <= |buf|
    ensures buf[p + 4..p + 5 + I32(buf, p)] == [v.subtype] + v.data
  {
    hide I32;
    AtConcat(buf, p, Le32(|v.data|), [v.subtype] + v.data);
    AtI32(buf, p, |v.data|);
  }

  lemma RegexRead(buf: Bytes, p: nat, v: Value)
    requires Holds(buf, p, v) && v.Regex?
    ensures p <= |buf| && FindNul(buf, p) < |buf| && CStringAt(buf, p) == v.pattern
    ensures CStringAt(buf, FindNul(buf, p) + 1) == v.options
  {
    hide FindNul, At;
    AtConcat(buf, p, EncodeCString(v.pattern), EncodeCString(v.options));
    AtCString(buf, p, v.pattern);
    AtCString(buf, p + |v.pattern| + 1, v.options);
  }

  /** A C string inside other bytes ends where it ends alone. */
  lemma CStringWithin(buf: Bytes, p: nat, bytes: Bytes)
    requires At(buf, p, bytes) && bytes != [] && bytes[|bytes| - 1] == 0
    ensures FindNul(bytes, 0) < |bytes| && FindNul(buf, p) == p + FindNul(bytes, 0) < |buf|
    ensures CStringAt(buf, p) == CStr(bytes)
  {
    var k := FindNul(bytes, 0);
    assert forall i :: 0 <= i < |bytes| ==> bytes[i] == buf[p + i];
    FindNulUnique(buf, p, p + k);
  }

  lemma CodeRead(buf: Bytes, p: nat, v: Value)
    requires Holds(buf, p, v) && v.CodeWScope?
    ensures p + 8 <= |buf| && FindNul(buf, p + 8) < |buf| && CStringAt(buf, p + 8) == CodePart(v.code, v.scope)
    ensures CStringAt(buf, FindNul(buf, p + 8) + 1) == ScopePart(v.code, v.scope)
  {
    hide FindNul, CStr, CodeBytes, At, Holds, CStringAt;
    var bytes := CodeBytes(v.code, v.scope);
    CodeStands(buf, p, v);
    CodeEnds(v.code, v.scope);
    CStringWithin(buf, p + 8, bytes);
    var k := FindNul(bytes, 0);
    AtTail(buf, p + 8, bytes, k + 1);
    CStringWithin(buf, p + 8 + (k + 1), bytes[k + 1..]);
  }

  lemma AtTail(buf: Bytes, p: nat, bytes: Bytes, k: nat)
    requires At(buf, p, bytes) && k <= |bytes|
    ensures At(buf, p + k, bytes[k..]) && p + |bytes| <= |buf|
  {
  }

  lemma CodeStands(buf: Bytes, p: nat, v: Value)
    requires Holds(buf, p, v) && v.CodeWScope?
    ensures At(buf, p + 8, CodeBytes(v.code, v.scope))
  {
    hide At, EncodeDoc, Le32;
    var size := CodeWScopeSize(v.code, v.scope);
    AtConcat(buf, p, Le32(size), EncodeString(v.code) + EncodeDoc(v.scope));
    assert EncodeString(v.code) + EncodeDoc(v.scope) == Le32(|v.code| + 1) + CodeBytes(v.code, v.scope);
    AtConcat(buf, p + 4, Le32(|v.code| + 1), CodeBytes(v.code, v.scope));
  }

  lemma LastIsEoo(d: Doc)
    ensures |EncodeDoc(d)| >= 5 && EncodeDoc(d)[|EncodeDoc(d)| - 1] == 0
  {
  }

  lemma CodeEnds(code: Bytes, scope: Doc)
    ensures var bytes := CodeBytes(code, scope);
      FindNul(bytes, 0) + 1 < |bytes| && bytes[|bytes| - 1] == 0
  {
    hide EncodeDoc;
    LastIsEoo(scope);
    assert CodeBytes(code, scope)[|code|] == 0;
  }

  // ----- comparing -----

  method CompareText(a: Bytes, p: nat, b: Bytes, q: nat, ghost s: Bytes, ghost t: Bytes) returns (x: int)
    requires |s| + 5 < TWO31 && At(a, p, EncodeString(s)) && |t| + 5 < TWO31 && At(b, q, EncodeString(t))
    ensures x == CompareStrings(s, t)
  {
    hide I32, Memcmp, EncodeString, At;
    TextRead(a, p, s);
    TextRead(b, q, t);
    var lsz, rsz := I32(a, p), I32(b, q);
    var common := if lsz < rsz then lsz else rsz;
    assert a[p + 4..p + 4 + common] == (s + [0])[..common] by {
      assert a[p + 4..p + 4 + common] == a[p + 4..p + 4 + lsz][..common];
    }
    assert b[q + 4..q + 4 + common] == (t + [0])[..common] by {
      assert b[q + 4..q + 4 + common] == b[q + 4..q + 4 + rsz][..common];
    }
    var res := Memcmp(a[p + 4..p + 4 + common], b[q + 4..q + 4 + common]);
    return if res != 0 then res else lsz - rsz;
  }

  /** Values without documents inside. */
  method CompareScalars(a: Bytes, tag: Byte, p: nat, b: Bytes, other: Byte, q: nat, ghost l: Value, ghost r: Value)
    returns (x: Result)
    requires Holds(a, p, l) && TypeOf(l) == tag && Holds(b, q, r) && TypeOf(r) == other
    requires CanonicalType(tag) == CanonicalType(other) && !IsEmbedded(tag)
    ensures x == CompareValues(l, r)
  {
    hide I32, Memcmp, Strcmp, CompareStrings, CompareFixed, CodePart, ScopePart, FindNul, ValueSize, EncodeValue, At, Holds;
    HoldsGood(a, p, l);
    HoldsGood(b, q, r);
    SameShape(l, r);
    if IsFixed(tag) {
      FixedRead(a, p, l);
      FixedRead(b, q, r);
      x := CompareFixed(Fixed(tag, a[p..p + FixedSize(tag)]), Fixed(other, b[q..q + FixedSize(other)]));
    } else if tag in {CODE, SYMBOL, STRING} {
      TextStands(a, p, l);
      TextStands(b, q, r);
      var n := CompareText(a, p, b, q, l.text, r.text);
      x := Is(n);
    } else if tag == DB_REF {
      DBRefRead(a, p, l);
      DBRefRead(b, q, r);
      var lsz, rsz := ValueSize(a, tag, p).n, ValueSize(b, other, q).n;
      x := Is(if lsz != rsz then lsz - rsz else Memcmp(a[p..p + lsz], b[q..q + rsz]));
    } else if tag == BIN_DATA {
      BinaryRead(a, p, l);
      BinaryRead(b, q, r);
      var lsz, rsz := I32(a, p), I32(b, q);
      x := Is(if lsz != rsz then lsz - rsz else Memcmp(a[p + 4..p + 5 + lsz], b[q + 4..q + 5 + rsz]));
    } else if tag == REG_EX {
      RegexRead(a, p, l);
      RegexRead(b, q, r);
      var c := Strcmp(CStringAt(a, p), CStringAt(b, q));
      x := if c != 0 then Is(c)
           else Is(Strcmp(CStringAt(a, FindNul(a, p) + 1), CStringAt(b, FindNul(b, q) + 1)));
    } else {
      CodeRead(a, p, l);
      CodeRead(b, q, r);
      var c := Strcmp(CStringAt(a, p + 8), CStringAt(b, q + 8));
      x := if c != 0 then Is(c)
           else Is(Strcmp(CStringAt(a, FindNul(a, p + 8) + 1), CStringAt(b, FindNul(b, q + 8) + 1)));
    }
  }

  lemma HoldsGood(buf: Bytes, p: nat, v: Value)
    requires Holds(buf, p, v)
    ensures GoodValue(v)
  {
  }

  lemma TextStands(buf: Bytes, p: nat, v: Value)
    requires Holds(buf, p, v) && v.Text?
    ensures |v.text| + 5 < TWO31 && At(buf, p, EncodeString(v.text))
  {
  }

  /** BSONElement::woCompare: type, name, value. */
  method CompareElementsAt(a: Bytes, p: nat, b: Bytes, q: nat,
      ghost name: Bytes, ghost l: Value, ghost other: Bytes, ghost r: Value)
    returns (x: Result)
    requires NulFree(name) && GoodValue(l) && |EncodeElement(name, l)| < TWO31 && At(a, p, EncodeElement(name, l))
    requires NulFree(other) && GoodValue(r) && |EncodeElement(other, r)| < TWO31 && At(b, q, EncodeElement(other, r))
    ensures x == WoCompare(name, l, other, r)
    decreases l, 1
  {
    hide ElementSize, FieldName, ValueOffset, At, Strcmp, CanonicalType, CompareValues;
    ElementSizeExact(a, name, l, p);
    ElementSizeExact(b, other, r, q);
    var c := CanonicalType(a[p]) - CanonicalType(b[q]);
    if c != 0 {
      return Is(c);
    }
    c := Strcmp(FieldName(a, p), FieldName(b, q));
    if c != 0 {
      return Is(c);
    }
    x := CompareValuesAt(a, a[p], ValueOffset(a, p), b, b[q], ValueOffset(b, q), l, r);
  }

  /** compareElementValues. */
  method CompareValuesAt(a: Bytes, tag: Byte, p: nat, b: Bytes, other: Byte, q: nat, ghost l: Value, ghost r: Value)
    returns (x: Result)
    requires Holds(a, p, l) && TypeOf(l) == tag && Holds(b, q, r) && TypeOf(r) == other
    requires CanonicalType(tag) == CanonicalType(other)
    ensures x == CompareValues(l, r)
    decreases l, 0
  {
    hide CompareDocs, At, EncodeDoc;
    if tag in {OBJECT, ARRAY} {
      SameShape(l, r);
      x := CompareObjects(a, p, b, q, l.doc, r.doc);
    } else {
      x := CompareScalars(a, tag, p, b, other, q, l, r);
    }
  }

  /** BSONObj::woCompare: a field of each object at a time, until one differs or one object ends. */
  method CompareObjects(a: Bytes, start: nat, b: Bytes, other: nat, ghost l: Doc, ghost r: Doc) returns (x: Result)
    requires Representable(l) && At(a, start, EncodeDoc(l))
    requires Representable(r) && At(b, other, EncodeDoc(r))
    ensures x == CompareDocs(l, r)
    decreases l, 2
  {
    hide I32, ElementSize, FieldName, OnList, At, EncodeElement, EncodeList, EncodeDoc, GoodValue, GoodDoc, WoCompare, CompareDocs;
    DocIsList(a, start, l);
    DocIsList(b, other, r);
    EmptyIsFive(l);
    EmptyIsFive(r);
    RepresentableGood(l);
    RepresentableGood(r);
    CompareDocsStep(l, r);
    if I32(a, start) <= 5 {
      return Is(if I32(b, other) <= 5 then 0 else -1);
    }
    if I32(b, other) <= 5 {
      return Is(1);
    }
    var i := new BSONObjIterator(a, start);
    var j := new BSONObjIterator(b, other);
    ghost var left, right := l, r;
    while true
      invariant i.buf == a && j.buf == b && i != j && fresh(i) && fresh(j)
      invariant 0 <= i.pos && OnList(a, i.pos, i.theend, left)
      invariant 0 <= j.pos && OnList(b, j.pos, j.theend, right)
      invariant GoodDoc(left) && GoodDoc(right) && (left == l || left < l)
      invariant CompareDocs(l, r) == CompareDocs(left, right)
      decreases left
    {
      OnListSteps(a, i.pos, i.theend, left);
      OnListSteps(b, j.pos, j.theend, right);
      CompareDocsStep(left, right);
      var e := i.Next();
      var f := j.Next();
      if a[e.offset] == EOO {
        return Is(if b[f.offset] == EOO then 0 else -1);
      }
      if b[f.offset] == EOO {
        return Is(1);
      }
      x := CompareElementsAt(a, e.offset, b, f.offset, left.name, left.value, right.name, right.value);
      if x != Is(0) {
        return;
      }
      left, right := left.rest, right.rest;
    }
  }

  lemma CompareDocsStep(l: Doc, r: Doc)
    requires GoodDoc(l) && GoodDoc(r)
    ensures l.Empty? ==> CompareDocs(l, r) == Is(if r.Empty? then 0 else -1)
    ensures l.Field? && r.Empty? ==> CompareDocs(l, r) == Is(1)
    ensures l.Field? && r.Field? ==>
      && GoodValue(l.value) && GoodValue(r.value) && GoodDoc(l.rest) && GoodDoc(r.rest)
      && CompareDocs(l, r) ==
           var x := WoCompare(l.name, l.value, r.name, r.value);
           if x == Is(0) then CompareDocs(l.rest, r.rest) else x
  {
    hide WoCompare, GoodValue;
  }

  lemma RepresentableGood(d: Doc)
    requires Representable(d)
    ensures GoodDoc(d)
  {
  }

  lemma EmptyIsFive(d: Doc)
    ensures |EncodeDoc(d)| <= 5 <==> d.Empty?
  {
    if d.Field? {
      assert |EncodeList(d)| >= |EncodeElement(d.name, d.value)| > 0;
    }
  }
}
