/**
Reading a document in place: BSONElement::size recomputes element lengths from
the bytes, and BSONObjIterator walks a document by those lengths.
*/
module Reader {
  import opened Bson
  import opened ValidatorMachine
  import opened ValidatorProof

  // ----- BSONElement -----

  /** The size of an element, or why the source cannot tell it. */
  datatype Size = Sized(n: int) | BadType | PastEnd

  /** Offset of the value: behind the type byte and the field name; |buf| + 1 when the name has no end. */
  function ValueOffset(buf: Bytes, p: nat): nat
    requires p < |buf|
  {
    FindNul(buf, p + 1) + 1
  }

  function FieldName(buf: Bytes, p: nat): Bytes
    requires p < |buf|
  {
    if buf[p] == EOO then [] else buf[p + 1..FindNul(buf, p + 1)]
  }

  /** Length of the value at v by its type: the switch of BSONElement::size. */
  function ValueSize(buf: Bytes, tag: Byte, v: nat): Size
    requires v <= |buf|
  {
    if tag in {UNDEFINED, JST_NULL, MAX_KEY, MIN_KEY} then Sized(0)
    else if tag == BOOL then Sized(1)
    else if tag == NUMBER_INT then Sized(4)
    else if tag in {TIMESTAMP, DATE, NUMBER_DOUBLE, NUMBER_LONG} then Sized(8)
    else if tag == JST_OID then Sized(12)
    else if tag == REG_EX then
      var q := FindNul(buf, v);
      if q == |buf| then PastEnd
      else
        var r := FindNul(buf, q + 1);
        if r == |buf| then PastEnd else Sized((q - v) + 1 + (r - (q + 1)) + 1)
    else if tag !in {SYMBOL, CODE, STRING, DB_REF, CODE_W_SCOPE, OBJECT, ARRAY, BIN_DATA} then BadType
    else if v + 4 > |buf| then PastEnd
    else if tag in {SYMBOL, CODE, STRING} then Sized(I32(buf, v) + 4)
    else if tag == DB_REF then Sized(I32(buf, v) + 4 + 12)
    else if tag == BIN_DATA then Sized(I32(buf, v) + 4 + 1)
    else Sized(Wrap32(U32(buf, v)))
  }

  function ElementSize(buf: Bytes, p: nat): Size
    requires p < |buf|
  {
    if buf[p] == EOO then Sized(1)
    else if ValueOffset(buf, p) > |buf| then PastEnd
    else
      match ValueSize(buf, buf[p], ValueOffset(buf, p))
      case Sized(x) => Sized(Wrap32(x + (ValueOffset(buf, p) - p)))
      case other => other
  }

  lemma StringSize(buf: Bytes, p: nat, s: Bytes)
    requires |s| + 1 < TWO31 && At(buf, p, EncodeString(s))
    ensures p + 4 <= |buf| && I32(buf, p) + 4 == |EncodeString(s)|
  {
    hide I32;
    AtConcat(buf, p, Le32(|s| + 1), EncodeCString(s));
    AtI32(buf, p, |s| + 1);
  }

  lemma DocSize(buf: Bytes, p: nat, d: Doc)
    requires |EncodeDoc(d)| < TWO31 && At(buf, p, EncodeDoc(d))
    ensures p + 4 <= |buf| && I32(buf, p) == |EncodeDoc(d)|
  {
    hide I32;
    AtConcat(buf, p, Le32(|EncodeDoc(d)|), EncodeList(d) + [EOO]);
    AtI32(buf, p, |EncodeDoc(d)|);
  }

  /** The size read from the bytes of a value is the length of its encoding. */
  lemma ValueSizeExact(buf: Bytes, v: Value, p: nat)
    requires GoodValue(v) && |EncodeValue(v)| < TWO31 && At(buf, p, EncodeValue(v))
    ensures ValueSize(buf, TypeOf(v), p) == Sized(|EncodeValue(v)|)
  {
    match v
    case Fixed(_, _) =>
    case Binary(_, _) => BinarySize(buf, v, p);
    case Regex(_, _) => RegexSize(buf, v, p);
    case Embedded(_, _) => DocumentSize(buf, v, p);
    case CodeWScope(_, _) => DocumentSize(buf, v, p);
    case _ => TextSize(buf, v, p);
  }

  lemma TextSize(buf: Bytes, v: Value, p: nat)
    requires GoodValue(v) && (v.Text? || v.DBRef?) && |EncodeValue(v)| < TWO31 && At(buf, p, EncodeValue(v))
    ensures ValueSize(buf, TypeOf(v), p) == Sized(|EncodeValue(v)|)
  {
    hide I32, EncodeString, FindNul, At;
    if v.Text? {
      StringSize(buf, p, v.text);
    } else {
      AtConcat(buf, p, EncodeString(v.ns), v.oid);
      StringSize(buf, p, v.ns);
    }
  }

  lemma BinarySize(buf: Bytes, v: Value, p: nat)
    requires v.Binary? && |EncodeValue(v)| < TWO31 && At(buf, p, EncodeValue(v))
    ensures ValueSize(buf, TypeOf(v), p) == Sized(|EncodeValue(v)|)
  {
    hide I32, FindNul, At;
    AtConcat(buf, p, Le32(|v.data|), [v.subtype] + v.data);
    AtI32(buf, p, |v.data|);
  }

  lemma RegexSize(buf: Bytes, v: Value, p: nat)
    requires v.Regex? && GoodValue(v) && At(buf, p, EncodeValue(v))
    ensures ValueSize(buf, TypeOf(v), p) == Sized(|EncodeValue(v)|)
  {
    hide I32, FindNul, At;
    AtConcat(buf, p, EncodeCString(v.pattern), EncodeCString(v.options));
    AtCString(buf, p, v.pattern);
    AtCString(buf, p + |v.pattern| + 1, v.options);
  }

  lemma DocumentSize(buf: Bytes, v: Value, p: nat)
    requires GoodValue(v) && (v.Embedded? || v.CodeWScope?) && |EncodeValue(v)| < TWO31 && At(buf, p, EncodeValue(v))
    ensures ValueSize(buf, TypeOf(v), p) == Sized(|EncodeValue(v)|)
  {
    hide I32, EncodeString, EncodeDoc, Wrap32, FindNul, At;
    if v.Embedded? {
      DocSize(buf, p, v.doc);
    } else {
      AtConcat(buf, p, Le32(CodeWScopeSize(v.code, v.scope)), EncodeString(v.code) + EncodeDoc(v.scope));
      AtI32(buf, p, CodeWScopeSize(v.code, v.scope));
    }
    SizeIsI32(buf, p);
  }

  lemma SizeIsI32(buf: Bytes, p: nat)
    requires p + 4 <= |buf|
    ensures Wrap32(U32(buf, p)) == I32(buf, p)
  {
  }

  /** So is the size of an element, and its name reads back. */
  lemma ElementSizeExact(buf: Bytes, name: Bytes, v: Value, p: nat)
    requires NulFree(name) && GoodValue(v) && |EncodeElement(name, v)| < TWO31
    requires At(buf, p, EncodeElement(name, v))
    ensures p < |buf| && buf[p] == TypeOf(v) != EOO
    ensures FieldName(buf, p) == name && ValueOffset(buf, p) == p + |ElementHeader(TypeOf(v), name)|
    ensures At(buf, ValueOffset(buf, p), EncodeValue(v))
    ensures ElementSize(buf, p) == Sized(|EncodeElement(name, v)|)
  {
    hide ValueSize, FindNul, Wrap32, EncodeValue;
    var header := ElementHeader(TypeOf(v), name);
    AtConcat(buf, p, header, EncodeValue(v));
    AtConcat(buf, p, [TypeOf(v)], EncodeCString(name));
    AtByte(buf, p, TypeOf(v));
    AtCString(buf, p + 1, name);
    ValueSizeExact(buf, v, p + |header|);
  }

  // ----- BSONObjIterator -----

  /** The rest of an element list stands at pos, its EOO at theend. */
  predicate OnList(buf: Bytes, pos: nat, theend: int, rest: Doc) {
    && GoodDoc(rest) && At(buf, pos, EncodeList(rest) + [EOO])
    && |EncodeList(rest)| + 1 < TWO31
    && pos + |EncodeList(rest)| == theend
  }

  /** Stepping over an element by its size lands on the next one, and only the EOO ends the walk. */
  lemma OnListSteps(buf: Bytes, pos: nat, theend: int, rest: Doc)
    requires OnList(buf, pos, theend, rest)
    ensures 0 <= theend < |buf| && buf[theend] == EOO && pos <= theend
    ensures rest.Empty? <==> pos == theend
    ensures rest.Empty? ==> ElementSize(buf, pos) == Sized(1) && buf[pos] == EOO
    ensures rest.Field? ==>
      && NulFree(rest.name) && GoodValue(rest.value)
      && At(buf, pos, EncodeElement(rest.name, rest.value))
      && |EncodeElement(rest.name, rest.value)| < TWO31
      && buf[pos] == TypeOf(rest.value) != EOO && FieldName(buf, pos) == rest.name
      && ElementSize(buf, pos) == Sized(|EncodeElement(rest.name, rest.value)|)
      && OnList(buf, pos + |EncodeElement(rest.name, rest.value)|, theend, rest.rest)
  {
    hide ElementSize, FieldName, EncodeElement;
    AtConcat(buf, pos, EncodeList(rest), [EOO]);
    AtByte(buf, theend, EOO);
    if rest.Field? {
      var e := EncodeElement(rest.name, rest.value);
      assert EncodeList(rest) + [EOO] == e + (EncodeList(rest.rest) + [EOO]);
      AtConcat(buf, pos, e, EncodeList(rest.rest) + [EOO]);
      ElementSizeExact(buf, rest.name, rest.value, pos);
    } else {
      EooSize(buf, pos);
    }
  }

  lemma EooSize(buf: Bytes, pos: nat)
    requires pos < |buf| && buf[pos] == EOO
    ensures ElementSize(buf, pos) == Sized(1)
  {
  }

  lemma DocIsList(buf: Bytes, start: nat, d: Doc)
    requires Representable(d) && At(buf, start, EncodeDoc(d))
    ensures start + 4 <= |buf| && I32(buf, start) == |EncodeDoc(d)|
    ensures OnList(buf, start + 4, start + |EncodeDoc(d)| - 1, d)
  {
    hide I32;
    DocSize(buf, start, d);
    AtConcat(buf, start, Le32(|EncodeDoc(d)|), EncodeList(d) + [EOO]);
  }

  datatype Element = Elem(offset: nat) | Failed

  class BSONObjIterator {
    const buf: Bytes
    var pos: int
    var theend: int

    /** An object of size 0 gives an iterator with nothing in it. */
    constructor (buf: Bytes, start: nat)
      requires start + 4 <= |buf|
      ensures this.buf == buf
      ensures I32(buf, start) != 0 ==> pos == start + 4 && theend == start + I32(buf, start) - 1
      ensures I32(buf, start) == 0 ==> pos == theend == 0
    {
      this.buf := buf;
      var sz := I32(buf, start);
      pos := if sz == 0 then 0 else start + 4;
      theend := if sz == 0 then 0 else start + sz - 1;
    }

    predicate More()
      reads this
    {
      pos < theend
    }

    predicate MoreWithEOO()
      reads this
    {
      pos <= theend
    }

    /** The element here; Failed when the `verify` or the size computation fails. */
    method Next() returns (e: Element)
      modifies this`pos
      ensures 0 <= old(pos) < |buf| && old(pos) <= theend && ElementSize(buf, old(pos)).Sized? ==>
                e == Elem(old(pos)) && pos == old(pos) + ElementSize(buf, old(pos)).n
      ensures e.Failed? ==> pos == old(pos)
    {
      if pos > theend || pos < 0 || pos >= |buf| {
        return Failed;
      }
      match ElementSize(buf, pos)
      case Sized(n) =>
        e := Elem(pos);
        pos := pos + n;
      case _ =>
        e := Failed;
    }
  }

  // ----- loops over an iterator -----

  /** Offsets of the elements of one level, without the EOO. */
  function Offsets(d: Doc, p: nat): seq<nat> {
    match d
    case Empty => []
    case Field(name, value, rest) => [p] + Offsets(rest, p + |EncodeElement(name, value)|)
  }

  function FieldNames(d: Doc): seq<Bytes> {
    match d
    case Empty => []
    case Field(name, _, rest) => [name] + FieldNames(rest)
  }

  function FieldValues(d: Doc): seq<Value> {
    match d
    case Empty => []
    case Field(_, value, rest) => [value] + FieldValues(rest)
  }

  function Length(d: Doc): nat {
    match d
    case Empty => 0
    case Field(_, _, rest) => 1 + Length(rest)
  }

  /** BSONObj::elems. */
  method Elems(buf: Bytes, start: nat, ghost d: Doc) returns (v: seq<nat>)
    requires Representable(d) && At(buf, start, EncodeDoc(d))
    ensures v == Offsets(d, start + 4)
  {
    hide I32, ElementSize, FieldName, OnList, At, EncodeElement, EncodeList, EncodeDoc, GoodValue, Offsets;
    DocIsList(buf, start, d);
    var i := new BSONObjIterator(buf, start);
    v := [];
    ghost var rest := d;
    while i.More()
      invariant i.buf == buf && i.theend == start + |EncodeDoc(d)| - 1
      invariant 0 <= i.pos && OnList(buf, i.pos, i.theend, rest)
      invariant v + Offsets(rest, i.pos) == Offsets(d, start + 4)
      decreases rest
    {
      OnListSteps(buf, i.pos, i.theend, rest);
      var e := i.Next();
      OffsetsStep(rest, e.offset, v);
      v := v + [e.offset];
      rest := rest.rest;
    }
    OnListSteps(buf, i.pos, i.theend, rest);
    OffsetsStep(rest, i.pos, v);
  }

  lemma OffsetsStep(d: Doc, p: nat, v: seq<nat>)
    ensures v + Offsets(d, p) ==
      if d.Empty? then v else (v + [p]) + Offsets(d.rest, p + |EncodeElement(d.name, d.value)|)
  {
    hide EncodeElement;
  }

  /** BSONObj::nFields. */
  method NFields(buf: Bytes, start: nat, ghost d: Doc) returns (n: nat)
    requires Representable(d) && At(buf, start, EncodeDoc(d))
    ensures n == Length(d)
  {
    hide I32, ElementSize, FieldName, OnList, At, EncodeElement, EncodeList, EncodeDoc, GoodValue;
    DocIsList(buf, start, d);
    n := 0;
    var i := new BSONObjIterator(buf, start);
    ghost var rest := d;
    while i.MoreWithEOO()
      invariant i.buf == buf && i.theend == start + |EncodeDoc(d)| - 1
      invariant 0 <= i.pos && OnList(buf, i.pos, i.theend, rest)
      invariant n + Length(rest) == Length(d)
      decreases rest
    {
      OnListSteps(buf, i.pos, i.theend, rest);
      var e := i.Next();
      if buf[e.offset] == EOO {
        return n;
      }
      n := n + 1;
      rest := rest.rest;
    }
    OnListSteps(buf, i.pos, i.theend, rest);
  }

  // ----- the reader agrees with the validator -----

  /** Walks a document and, at every object, array and scope in it, walks that too. */
  method Walk(buf: Bytes, start: nat, ghost d: Doc) returns (visits: seq<nat>)
    requires Representable(d) && At(buf, start, EncodeDoc(d))
    ensures visits == Boundaries(d, start + 4)
    decreases d, 1
  {
    hide I32, ElementSize, FieldName, OnList, At, EncodeElement, ElementHeader, EncodeList, ValueBoundaries, GoodValue,
      Boundaries, EncodeDoc;
    DocIsList(buf, start, d);
    var i := new BSONObjIterator(buf, start);
    visits := [];
    ghost var rest := d;
    while i.More()
      invariant i.buf == buf && i.theend == start + |EncodeDoc(d)| - 1
      invariant 0 <= i.pos && OnList(buf, i.pos, i.theend, rest)
      invariant rest == d || rest < d
      invariant visits + Boundaries(rest, i.pos) == Boundaries(d, start + 4)
      decreases rest
    {
      OnListSteps(buf, i.pos, i.theend, rest);
      var e := i.Next();
      var nested := WalkValue(buf, e.offset, rest.name, rest.value);
      BoundariesStep(rest, e.offset, visits);
      visits := visits + ([e.offset] + nested);
      rest := rest.rest;
    }
    OnListSteps(buf, i.pos, i.theend, rest);
    BoundariesEnd(i.pos);
    visits := visits + [i.pos];
  }

  lemma BoundariesStep(d: Doc, p: nat, visits: seq<nat>)
    requires d.Field?
    ensures visits + Boundaries(d, p) ==
      (visits + ([p] + ValueBoundaries(d.value, p + |ElementHeader(TypeOf(d.value), d.name)|)))
      + Boundaries(d.rest, p + |EncodeElement(d.name, d.value)|)
  {
    hide ValueBoundaries, EncodeElement, ElementHeader;
  }

  lemma BoundariesEnd(p: nat)
    ensures Boundaries(Empty, p) == [p]
  {
  }

  method WalkValue(buf: Bytes, p: nat, ghost name: Bytes, ghost v: Value) returns (visits: seq<nat>)
    requires NulFree(name) && GoodValue(v) && |EncodeElement(name, v)| < TWO31
    requires At(buf, p, EncodeElement(name, v))
    ensures visits == ValueBoundaries(v, p + |ElementHeader(TypeOf(v), name)|)
    decreases v, 0
  {
    hide I32, ElementSize, At, FindNul, EncodeString;
    ElementSizeExact(buf, name, v, p);
    var value := ValueOffset(buf, p);
    if buf[p] in {OBJECT, ARRAY} {
      visits := Walk(buf, value, v.doc);
    } else if buf[p] == CODE_W_SCOPE {
      AtConcat(buf, value, Le32(CodeWScopeSize(v.code, v.scope)), EncodeString(v.code) + EncodeDoc(v.scope));
      AtConcat(buf, value + 4, EncodeString(v.code), EncodeDoc(v.scope));
      StringSize(buf, value + 4, v.code);
      visits := Walk(buf, value + 4 + 4 + I32(buf, value + 4), v.scope);
    } else {
      visits := [];
    }
  }

  /** The reader visits exactly what the validator looked at, in the same order. */
  method WalkAccepted(buf: Bytes) returns (visits: seq<nat>)
    requires Run(buf, Start) == Accept
    ensures visits == Visits(buf, Start)
  {
    hide Run, Visits;
    RunRefinesGrammar(buf);
    ghost var d :| Representable(d) && At(buf, 0, EncodeDoc(d));
    VisitsAreBoundaries(buf, d);
    visits := Walk(buf, 0, d);
  }
}
