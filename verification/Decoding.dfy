/**
The encoding determines the document: no two documents share their bytes, not
even with something behind them.
*/
module Decoding {
  import opened Bson
  import opened Reader

  lemma StringUnique(buf: Bytes, p: nat, s: Bytes, t: Bytes)
    requires |s| + 1 < TWO31 && |t| + 1 < TWO31
    requires At(buf, p, EncodeString(s)) && At(buf, p, EncodeString(t))
    ensures s == t
  {
    hide I32, EncodeString;
    StringSize(buf, p, s);
    StringSize(buf, p, t);
    StringText(buf, p, s);
    StringText(buf, p, t);
  }

  lemma StringText(buf: Bytes, p: nat, s: Bytes)
    requires At(buf, p, EncodeString(s))
    ensures s == buf[p + 4..p + 4 + |s|]
  {
    AtConcat(buf, p, Le32(|s| + 1), EncodeCString(s));
    AtConcat(buf, p + 4, s, [0]);
  }

  /** Two values of one type that read at the same place are the same value. */
  lemma {:induction false} ValueUnique(buf: Bytes, p: nat, v: Value, w: Value)
    requires GoodValue(v) && GoodValue(w) && TypeOf(v) == TypeOf(w)
    requires |EncodeValue(v)| < TWO31 && |EncodeValue(w)| < TWO31
    requires At(buf, p, EncodeValue(v)) && At(buf, p, EncodeValue(w))
    ensures v == w
    decreases v, 2
  {
    hide EncodeString, EncodeDoc;
    match v
    case Fixed(_, _) =>
    case Text(_, text) => StringUnique(buf, p, text, w.text);
    case DBRef(_, _) => DBRefUnique(buf, p, v, w);
    case Binary(_, _) => BinaryUnique(buf, p, v, w);
    case Regex(_, _) => RegexUnique(buf, p, v, w);
    case Embedded(_, doc) => DocUnique(buf, p, doc, w.doc);
    case CodeWScope(code, scope) =>
      CodeWScopeParts(buf, p, code, scope);
      CodeWScopeParts(buf, p, w.code, w.scope);
      StringUnique(buf, p + 4, code, w.code);
      DocUnique(buf, p + 4 + |EncodeString(code)|, scope, w.scope);
  }

  lemma DBRefUnique(buf: Bytes, p: nat, v: Value, w: Value)
    requires v.DBRef? && w.DBRef? && GoodValue(v) && GoodValue(w)
    requires |EncodeValue(v)| < TWO31 && |EncodeValue(w)| < TWO31
    requires At(buf, p, EncodeValue(v)) && At(buf, p, EncodeValue(w))
    ensures v == w
  {
    hide EncodeString;
    AtConcat(buf, p, EncodeString(v.ns), v.oid);
    AtConcat(buf, p, EncodeString(w.ns), w.oid);
    StringUnique(buf, p, v.ns, w.ns);
  }

  lemma CodeWScopeParts(buf: Bytes, p: nat, code: Bytes, scope: Doc)
    requires At(buf, p, EncodeValue(CodeWScope(code, scope)))
    ensures At(buf, p + 4, EncodeString(code)) && At(buf, p + 4 + |EncodeString(code)|, EncodeDoc(scope))
    ensures |EncodeValue(CodeWScope(code, scope))| == CodeWScopeSize(code, scope)
  {
    hide EncodeString, EncodeDoc;
    AtConcat(buf, p, Le32(CodeWScopeSize(code, scope)), EncodeString(code) + EncodeDoc(scope));
    AtConcat(buf, p + 4, EncodeString(code), EncodeDoc(scope));
  }

  lemma BinaryUnique(buf: Bytes, p: nat, v: Value, w: Value)
    requires v.Binary? && w.Binary? && |EncodeValue(v)| < TWO31 && |EncodeValue(w)| < TWO31
    requires At(buf, p, EncodeValue(v)) && At(buf, p, EncodeValue(w))
    ensures v == w
  {
    hide I32;
    AtConcat(buf, p, Le32(|v.data|), [v.subtype] + v.data);
    AtConcat(buf, p, Le32(|w.data|), [w.subtype] + w.data);
    AtI32(buf, p, |v.data|);
    AtI32(buf, p, |w.data|);
    assert ([v.subtype] + v.data)[1..] == v.data && ([w.subtype] + w.data)[1..] == w.data;
  }

  lemma RegexUnique(buf: Bytes, p: nat, v: Value, w: Value)
    requires v.Regex? && w.Regex? && GoodValue(v) && GoodValue(w)
    requires At(buf, p, EncodeValue(v)) && At(buf, p, EncodeValue(w))
    ensures v == w
  {
    hide FindNul, At;
    AtConcat(buf, p, EncodeCString(v.pattern), EncodeCString(v.options));
    AtConcat(buf, p, EncodeCString(w.pattern), EncodeCString(w.options));
    AtCString(buf, p, v.pattern);
    AtCString(buf, p, w.pattern);
    AtCString(buf, p + |v.pattern| + 1, v.options);
    AtCString(buf, p + |v.pattern| + 1, w.options);
  }

  lemma {:induction false} ListUnique(buf: Bytes, p: nat, theend: int, d: Doc, e: Doc)
    requires OnList(buf, p, theend, d) && OnList(buf, p, theend, e)
    ensures d == e
    decreases d, 0
  {
    hide OnList, ElementSize, FieldName, EncodeElement, ValueOffset;
    OnListSteps(buf, p, theend, d);
    OnListSteps(buf, p, theend, e);
    if d.Field? {
      ElementSizeExact(buf, d.name, d.value, p);
      ElementSizeExact(buf, e.name, e.value, p);
      ElementLonger(d.name, d.value);
      ElementLonger(e.name, e.value);
      ValueUnique(buf, ValueOffset(buf, p), d.value, e.value);
      ListUnique(buf, p + |EncodeElement(d.name, d.value)|, theend, d.rest, e.rest);
    }
  }

  lemma ElementLonger(name: Bytes, v: Value)
    ensures |EncodeValue(v)| < |EncodeElement(name, v)|
  {
  }

  /** At most one document stands at a place. */
  lemma {:induction false} DocUnique(buf: Bytes, p: nat, d: Doc, e: Doc)
    requires Representable(d) && Representable(e)
    requires At(buf, p, EncodeDoc(d)) && At(buf, p, EncodeDoc(e))
    ensures d == e
    decreases d, 1
  {
    hide OnList, I32;
    DocIsList(buf, p, d);
    DocIsList(buf, p, e);
    ListUnique(buf, p + 4, p + |EncodeDoc(d)| - 1, d, e);
  }
}
