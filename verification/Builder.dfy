/**
BSONObjBuilder: documents written into a growing buffer, nested ones in place.
A builder leaves four bytes for its size, and `done` writes the EOO and patches
the size at the builder's own offset; a nested builder shares its parent's buffer.
*/
module Builder {
  import opened Bson
  import opened Reader
  import opened Decoding
  import opened ValidatorMachine
  import opened ValidatorProof

  class BufBuilder {
    var data: Bytes

    constructor ()
      ensures data == []
    {
      data := [];
    }

    method AppendChar(c: Byte)
      modifies this
      ensures data == old(data) + [c]
    {
      data := data + [c];
    }

    method AppendNum(n: int)
      modifies this
      ensures data == old(data) + Le32(n)
    {
      data := data + Le32(n);
    }

    method AppendStr(s: Bytes)
      modifies this
      ensures data == old(data) + EncodeCString(s)
    {
      data := data + (s + [0]);
    }

    method AppendBuf(bytes: Bytes)
      modifies this
      ensures data == old(data) + bytes
    {
      data := data + bytes;
    }

    /** Leaves room: what stands there is whatever the memory held. */
    method Skip(n: nat)
      modifies this
      ensures |data| == |old(data)| + n && data[..|old(data)|] == old(data)
    {
      var zeros: Bytes := seq(n, _ => 0);
      assert |zeros| == n;
      var room: Bytes :| |room| == n;
      data := data + room;
    }

    method SetLen(n: nat)
      requires n <= |data|
      modifies this
      ensures data == old(data)[..n]
    {
      data := data[..n];
    }

    /** `*((int*)(buf + offset)) = n`. */
    method PatchInt(offset: nat, n: int)
      requires offset + 4 <= |data|
      modifies this
      ensures |data| == |old(data)| && U32(data, offset) == n % TWO32
      ensures forall i :: 0 <= i < |data| && !(offset <= i < offset + 4) ==> data[i] == old(data)[i]
    {
      hide Le32, U32;
      data := data[..offset] + (Le32(n) + data[offset + 4..]);
      assert data[offset..offset + 4] == Le32(n);
      ReadsBack(data, offset, n);
    }
  }

  lemma Le32Wraps(n: int)
    ensures Le32(n % TWO32) == Le32(n)
  {
    var n1 := n / 256;
    var n2 := n1 / 256;
    var n3 := n2 / 256;
    Shift(n, 65536, n2, 256 * (n1 % 256) + n % 256);
    Shift(n, 16777216, n3, 65536 * (n2 % 256) + (256 * (n1 % 256) + n % 256));
    var low := FromBytes(n % 256, n1 % 256, n2 % 256, n3 % 256);
    Shift(n, TWO32, n3 / 256, low);
    Le32Digits(low, n % 256, n1 % 256, n2 % 256, n3 % 256);
  }

  lemma Shift(n: int, d: int, q: int, r: int)
    requires 0 <= r < d && n == d * q + r
    ensures n / d == q && n % d == r
  {
    var p := n / d;
    assert n == d * p + n % d;
    AtLeast(d, p - q);
    AtLeast(d, q - p);
    assert d * (p - q) == d * p - d * q && d * (q - p) == d * q - d * p;
  }

  lemma AtLeast(d: int, k: int)
    requires d > 0
    ensures k >= 1 ==> d * k >= d
  {
  }

  lemma ReadsBack(data: Bytes, p: nat, n: int)
    requires p + 4 <= |data|
    ensures At(data, p, Le32(n)) <==> U32(data, p) == n % TWO32
  {
    hide Le32, U32;
    Le32Wraps(n);
    AtLe32(data, p, n % TWO32);
  }

  /** Nothing but the number changes. */
  lemma Patched(before: Bytes, after: Bytes, offset: nat, n: int)
    requires offset + 4 <= |before| == |after| && U32(after, offset) == n % TWO32
    requires forall i :: 0 <= i < |after| && !(offset <= i < offset + 4) ==> after[i] == before[i]
    ensures after == before[..offset] + (Le32(n) + before[offset + 4..])
  {
    hide Le32, U32;
    ReadsBack(after, offset, n);
    assert after == after[..offset] + (after[offset..offset + 4] + after[offset + 4..]);
  }

  /** The bytes of a finished document around an element list. */
  function Finish(list: Bytes): Bytes { Le32(|list| + 5) + (list + [EOO]) }

  class BSONObjBuilder {
    const b: BufBuilder
    const offset: nat
    var doneCalled: bool

    /** Appends go behind the size field. */
    ghost predicate Open()
      reads this, b
    {
      !doneCalled && offset + 4 <= |b.data|
    }

    /** The elements written so far. */
    ghost function List(): Bytes
      requires Open()
      reads this, b
    {
      b.data[offset + 4..]
    }

    /** A builder with its own buffer; a reference count precedes the document. */
    constructor ()
      ensures Open() && List() == [] && offset == 4 && fresh(b)
    {
      var buf := new BufBuilder();
      buf.AppendNum(0);
      buf.Skip(4);
      b := buf;
      offset := 4;
      doneCalled := false;
    }

    /** A builder of a nested document, in the buffer of the enclosing one. */
    constructor Within(base: BufBuilder)
      modifies base
      ensures b == base && offset == |old(base.data)|
      ensures Open() && List() == []
      ensures b.data[..offset] == old(base.data)
    {
      b := base;
      offset := |base.data|;
      doneCalled := false;
      base.Skip(4);
    }

    method AppendFixed(tag: Byte, fieldName: Bytes, raw: Bytes)
      modifies b
      ensures b.data == old(b.data) + EncodeElement(fieldName, Fixed(tag, raw))
    {
      Header(tag, fieldName);
      b.AppendBuf(raw);
    }

    method AppendText(tag: Byte, fieldName: Bytes, text: Bytes)
      modifies b
      ensures b.data == old(b.data) + EncodeElement(fieldName, Text(tag, text))
    {
      Header(tag, fieldName);
      b.AppendNum(|text| + 1);
      b.AppendStr(text);
    }

    method AppendDBRef(fieldName: Bytes, ns: Bytes, oid: Bytes)
      modifies b
      ensures b.data == old(b.data) + EncodeElement(fieldName, DBRef(ns, oid))
    {
      Header(DB_REF, fieldName);
      b.AppendNum(|ns| + 1);
      b.AppendStr(ns);
      b.AppendBuf(oid);
    }

    method AppendBinData(fieldName: Bytes, subtype: Byte, data: Bytes)
      modifies b
      ensures b.data == old(b.data) + EncodeElement(fieldName, Binary(subtype, data))
    {
      Header(BIN_DATA, fieldName);
      b.AppendNum(|data|);
      b.AppendChar(subtype);
      b.AppendBuf(data);
    }

    method AppendRegex(fieldName: Bytes, regex: Bytes, options: Bytes)
      modifies b
      ensures b.data == old(b.data) + EncodeElement(fieldName, Regex(regex, options))
    {
      Header(REG_EX, fieldName);
      b.AppendStr(regex);
      b.AppendStr(options);
    }

    /** append(fieldName, subObj) and appendArray: the finished bytes of another document. */
    method AppendDoc(tag: Byte, fieldName: Bytes, subObj: Bytes, ghost d: Doc)
      requires subObj == EncodeDoc(d)
      modifies b
      ensures b.data == old(b.data) + EncodeElement(fieldName, Embedded(tag, d))
    {
      hide EncodeDoc, ElementHeader;
      Header(tag, fieldName);
      b.AppendBuf(subObj);
      assert b.data == old(b.data) + (ElementHeader(tag, fieldName) + EncodeDoc(d));
    }

    method AppendCodeWScope(fieldName: Bytes, code: Bytes, scope: Bytes, ghost d: Doc)
      requires scope == EncodeDoc(d)
      modifies b
      ensures b.data == old(b.data) + EncodeElement(fieldName, CodeWScope(code, d))
    {
      hide EncodeDoc, ElementHeader;
      Header(CODE_W_SCOPE, fieldName);
      b.AppendNum(4 + 4 + |code| + 1 + |scope|);
      b.AppendNum(|code| + 1);
      b.AppendStr(code);
      b.AppendBuf(scope);
      assert b.data == old(b.data) + (ElementHeader(CODE_W_SCOPE, fieldName) +
        (Le32(CodeWScopeSize(code, d)) + (EncodeString(code) + EncodeDoc(d))));
    }

    /** append(BSONElement): the element's bytes as they stand in another document. */
    method AppendElement(buf: Bytes, p: nat, ghost name: Bytes, ghost v: Value)
      requires NulFree(name) && GoodValue(v) && |EncodeElement(name, v)| < TWO31
      requires At(buf, p, EncodeElement(name, v))
      modifies b
      ensures b.data == old(b.data) + EncodeElement(name, v)
    {
      hide ElementSize, EncodeElement;
      ElementSizeExact(buf, name, v, p);
      b.AppendBuf(buf[p..p + ElementSize(buf, p).n]);
    }

    /** appendAs: the same value under another name. */
    method AppendAs(buf: Bytes, p: nat, fieldName: Bytes, ghost name: Bytes, ghost v: Value)
      requires NulFree(name) && GoodValue(v) && |EncodeElement(name, v)| < TWO31
      requires At(buf, p, EncodeElement(name, v))
      modifies b
      ensures b.data == old(b.data) + EncodeElement(fieldName, v)
    {
      hide ElementSize, EncodeValue, ValueOffset;
      ElementSizeExact(buf, name, v, p);
      Header(buf[p], fieldName);
      b.AppendBuf(buf[ValueOffset(buf, p)..p + ElementSize(buf, p).n]);
    }

    /** subobjStart and subarrayStart: the header of a nested document, whose builder comes next. */
    method Header(tag: Byte, fieldName: Bytes)
      modifies b
      ensures b.data == old(b.data) + ElementHeader(tag, fieldName)
    {
      b.AppendChar(tag);
      b.AppendStr(fieldName);
    }

    method Done()
      requires !doneCalled ==> Open()
      modifies b, this`doneCalled
      ensures doneCalled
      ensures old(doneCalled) ==> b.data == old(b.data)
      ensures !old(doneCalled) ==> b.data == old(b.data)[..offset] + Finish(old(b.data)[offset + 4..])
    {
      if doneCalled {
        return;
      }
      doneCalled := true;
      b.AppendChar(EOO);
      var size := |b.data| - offset;
      ghost var before := b.data;
      b.PatchInt(offset, size);
      Patched(before, b.data, offset, size);
    }

    /** Peeks at the document so far and stays open; after `done` it takes the EOO back. */
    method AsTempObj() returns (temp: Bytes)
      requires if doneCalled then offset < |b.data| else Open()
      modifies b, this`doneCalled
      ensures !doneCalled && offset <= |b.data| && b.data[..offset] == old(b.data)[..offset]
      ensures !old(doneCalled) ==> Open() && List() == old(b.data)[offset + 4..] && temp == Finish(List())
      ensures old(doneCalled) ==> temp == old(b.data)[offset..] && b.data == old(b.data)[..|old(b.data)| - 1]
    {
      Done();
      temp := b.data[offset..];
      b.SetLen(|b.data| - 1);
      doneCalled := false;
    }

    /** The finished document of a builder that owns its buffer. */
    method Obj() returns (obj: Bytes)
      requires Open()
      modifies b, this`doneCalled
      ensures obj == Finish(old(List()))
    {
      Done();
      obj := b.data[offset..];
    }

    /** appendElements: all fields of another document. */
    method AppendElements(buf: Bytes, start: nat, ghost d: Doc)
      requires Representable(d) && At(buf, start, EncodeDoc(d))
      modifies b
      ensures b.data == old(b.data) + EncodeList(d)
    {
      hide I32, ElementSize, FieldName, OnList, At, EncodeElement;
      DocIsList(buf, start, d);
      var it := new BSONObjIterator(buf, start);
      ghost var rest := d;
      while it.MoreWithEOO()
        invariant it.buf == buf && it.theend == start + |EncodeDoc(d)| - 1
        invariant 0 <= it.pos && OnList(buf, it.pos, it.theend, rest)
        invariant b.data + EncodeList(rest) == old(b.data) + EncodeList(d)
        decreases rest
      {
        OnListSteps(buf, it.pos, it.theend, rest);
        var e := it.Next();
        if buf[e.offset] == EOO {
          return;
        }
        assert b.data + EncodeList(rest) == (b.data + EncodeElement(rest.name, rest.value)) + EncodeList(rest.rest);
        AppendElement(buf, e.offset, rest.name, rest.value);
        rest := rest.rest;
      }
      OnListSteps(buf, it.pos, it.theend, rest);
    }
  }

  // ----- building a whole tree -----

  /**
   Writes the fields of d through the interface, nested documents in place,
   with or without a peek after each field.
   */
  method BuildInto(builder: BSONObjBuilder, d: Doc)
    requires builder.Open()
    modifies builder`doneCalled, builder.b
    ensures builder.Open() && builder.List() == old(builder.List()) + EncodeList(d)
    ensures builder.b.data[..builder.offset] == old(builder.b.data)[..builder.offset]
    decreases d, 1
  {
    hide EncodeElement;
    if d.Field? {
      BuildField(builder, d.name, d.value);
      if * {
        var _ := builder.AsTempObj();
      }
      assert old(builder.List()) + EncodeList(d) ==
        (old(builder.List()) + EncodeElement(d.name, d.value)) + EncodeList(d.rest);
      BuildInto(builder, d.rest);
    }
  }

  method BuildField(builder: BSONObjBuilder, name: Bytes, v: Value)
    requires builder.Open()
    modifies builder.b
    ensures builder.Open() && builder.List() == old(builder.List()) + EncodeElement(name, v)
    ensures builder.b.data[..builder.offset] == old(builder.b.data)[..builder.offset]
    decreases v, 2
  {
    hide EncodeDoc;
    ghost var before := builder.b.data;
    match v {
      case Fixed(tag, raw) => builder.AppendFixed(tag, name, raw);
      case Text(tag, text) => builder.AppendText(tag, name, text);
      case DBRef(ns, oid) => builder.AppendDBRef(name, ns, oid);
      case Binary(subtype, data) => builder.AppendBinData(name, subtype, data);
      case Regex(pattern, options) => builder.AppendRegex(name, pattern, options);
      case Embedded(tag, doc) => BuildNested(builder, tag, name, doc);
      case CodeWScope(code, scope) =>
        var bytes := Build(scope);
        builder.AppendCodeWScope(name, code, bytes, scope);
    }
    Grown(before, EncodeElement(name, v), builder.offset);
  }

  lemma Grown(before: Bytes, e: Bytes, offset: nat)
    requires offset + 4 <= |before|
    ensures (before + e)[offset + 4..] == before[offset + 4..] + e
    ensures (before + e)[..offset] == before[..offset]
  {
  }

  /** A nested document in place is the bytes of appending it finished. */
  method BuildNested(builder: BSONObjBuilder, tag: Byte, name: Bytes, doc: Doc)
    requires builder.Open()
    modifies builder.b
    ensures builder.b.data == old(builder.b.data) + EncodeElement(name, Embedded(tag, doc))
    decreases doc, 2
  {
    hide ElementHeader, EncodeList, Le32;
    builder.Header(tag, name);
    ghost var base := builder.b.data;
    var sub := new BSONObjBuilder.Within(builder.b);
    BuildInto(sub, doc);
    assert [] + EncodeList(doc) == EncodeList(doc);
    assert sub.b.data[sub.offset + 4..] == EncodeList(doc);
    sub.Done();
    assert builder.b.data == base + EncodeDoc(doc);
    assert base + EncodeDoc(doc) == old(builder.b.data) + (ElementHeader(tag, name) + EncodeDoc(doc));
  }

  /** The tree built in place, nested documents in their parent's buffer. */
  method Build(d: Doc) returns (obj: Bytes)
    ensures obj == EncodeDoc(d)
    decreases d, 2
  {
    hide EncodeList;
    var builder := new BSONObjBuilder();
    BuildInto(builder, d);
    obj := builder.Obj();
    assert [] + EncodeList(d) == EncodeList(d);
  }

  /** The tree built bottom up: every nested document finished in its own buffer, then appended. */
  method BuildBottomUp(d: Doc) returns (obj: Bytes)
    ensures obj == EncodeDoc(d)
    decreases d
  {
    hide EncodeElement, EncodeList;
    var builder := new BSONObjBuilder();
    var rest := d;
    while rest.Field?
      invariant builder.Open() && fresh(builder) && fresh(builder.b)
      invariant rest == d || rest < d
      invariant builder.List() + EncodeList(rest) == EncodeList(d)
      decreases rest
    {
      ghost var before := builder.b.data;
      match rest.value {
        case Embedded(tag, doc) =>
          var sub := BuildBottomUp(doc);
          builder.AppendDoc(tag, rest.name, sub, doc);
          Grown(before, EncodeElement(rest.name, rest.value), builder.offset);
        case _ =>
          BuildField(builder, rest.name, rest.value);
      }
      ListStep(before[builder.offset + 4..], rest);
      rest := rest.rest;
    }
    ListStep(builder.List(), rest);
    obj := builder.Obj();
  }

  lemma ListStep(written: Bytes, d: Doc)
    ensures written + EncodeList(d) ==
      if d.Empty? then written else (written + EncodeElement(d.name, d.value)) + EncodeList(d.rest)
  {
    hide EncodeElement;
  }

  /** What is built is accepted by the validator, and decodes to the tree it was built from and to no other. */
  lemma BuiltIsAccepted(d: Doc, e: Doc)
    requires Representable(d)
    ensures Run(EncodeDoc(d), Start) == Accept
    ensures Representable(e) && At(EncodeDoc(d), 0, EncodeDoc(e)) ==> e == d
  {
    hide Run;
    var buf := EncodeDoc(d);
    assert buf[0..|buf|] == buf;
    assert At(buf, 0, EncodeDoc(d));
    RunRefinesGrammar(buf);
    if Representable(e) && At(buf, 0, EncodeDoc(e)) {
      DocUnique(buf, 0, d, e);
    }
  }
}
