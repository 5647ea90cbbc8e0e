/**
Field lookup: getField, getObjectField and getFieldDotted on the bytes of a
document, proved equal to lookup in the document tree.
*/
module Lookup {
  import opened Bson
  import opened Reader

  const DOT: Byte := 46

  /** The size a BSONObj may have (BSONObj::isValid). */
  const BSON_OBJ_MAX_INTERNAL_SIZE: int := 16 * 1024 * 1024 + 16 * 1024

  predicate ValidSize(n: int) { 0 < n <= BSON_OBJ_MAX_INTERNAL_SIZE }

  /** The bytes of a BSONObj stand at start and hold the document d. */
  predicate IsObj(buf: Bytes, start: nat, d: Doc) {
    GoodDoc(d) && ValidSize(|EncodeDoc(d)|) && At(buf, start, EncodeDoc(d))
  }

  // ----- lookup in the tree -----

  /** A found element: where it stands, its name and value. A miss is the EOO element. */
  datatype Hit = Miss | Hit(offset: nat, name: Bytes, value: Value) {
    function ValueAt(): nat
      requires Hit?
    {
      offset + |ElementHeader(TypeOf(value), name)|
    }
  }

  /** The first field of that name. */
  function Find(d: Doc, p: nat, name: Bytes): (h: Hit)
    ensures h.Hit? ==> h.name == name
    ensures h.Hit? && h.value.Embedded? ==> h.value.doc < d
  {
    match d
    case Empty => Miss
    case Field(n, v, rest) => if n == name then Hit(p, n, v) else Find(rest, p + |EncodeElement(n, v)|, name)
  }

  /** The name stands at place k of the names, and not before. */
  predicate IsFirst(names: seq<Bytes>, name: Bytes, k: nat) {
    k < |names| && names[k] == name && forall j :: 0 <= j < k ==> names[j] != name
  }

  lemma {:induction false} FindIffNamed(d: Doc, p: nat, name: Bytes)
    ensures Find(d, p, name).Hit? <==> name in FieldNames(d)
    decreases d
  {
    if d.Field? {
      FindIffNamed(d.rest, p + |EncodeElement(d.name, d.value)|, name);
    }
  }

  /** What is found is the first field of the name: its place, its value. */
  lemma {:induction false} FindIsFirst(d: Doc, p: nat, name: Bytes, k: nat)
    requires IsFirst(FieldNames(d), name, k)
    ensures k < |FieldValues(d)| == |Offsets(d, p)| == |FieldNames(d)|
    ensures Find(d, p, name) == Hit(Offsets(d, p)[k], name, FieldValues(d)[k])
    decreases d
  {
    hide EncodeElement;
    SameLengths(d, p);
    if k > 0 {
      assert d.name == FieldNames(d)[0] != name;
      assert forall j :: 0 <= j < |FieldNames(d.rest)| ==> FieldNames(d.rest)[j] == FieldNames(d)[j + 1];
      FindIsFirst(d.rest, p + |EncodeElement(d.name, d.value)|, name, k - 1);
    }
  }

  lemma {:induction false} SameLengths(d: Doc, p: nat)
    ensures |FieldValues(d)| == |Offsets(d, p)| == |FieldNames(d)|
    decreases d
  {
    if d.Field? {
      SameLengths(d.rest, p + |EncodeElement(d.name, d.value)|);
    }
  }

  function FirstDot(name: Bytes): (k: nat)
    ensures k <= |name| && (k < |name| ==> name[k] == DOT)
    ensures forall i :: 0 <= i < k ==> name[i] != DOT
  {
    if name == [] || name[0] == DOT then 0 else 1 + FirstDot(name[1..])
  }

  /** The whole name first; else the part before the first dot as an object or array, and the rest inside it. */
  function FindDotted(d: Doc, p: nat, name: Bytes): Hit
    decreases |name|
  {
    var k := FirstDot(name);
    if Find(d, p, name).Hit? || k == |name| then Find(d, p, name)
    else
      match Find(d, p, name[..k])
      case Hit(_, _, Embedded(_, sub)) =>
        if sub == Empty then Miss
        else FindDotted(sub, Find(d, p, name[..k]).ValueAt() + 4, name[k + 1..])
      case _ => Miss
  }

  /** Stepping into a found object or array, and looking there. */
  function FindInside(h: Hit, name: Bytes): Hit {
    match h
    case Hit(_, _, Embedded(_, sub)) => FindDotted(sub, h.ValueAt() + 4, name)
    case _ => Miss
  }

  // ----- lookup in the bytes -----

  datatype Found = Eoo | Element(offset: nat)

  predicate Same(h: Hit, f: Found) { if h.Hit? then f == Element(h.offset) else f == Eoo }

  /** What a hit in the tree says about the bytes. */
  lemma {:induction false} HitBytes(buf: Bytes, p: nat, theend: int, d: Doc, name: Bytes)
    requires OnList(buf, p, theend, d)
    ensures var h := Find(d, p, name);
      h.Hit? ==>
        && NulFree(h.name) && GoodValue(h.value) && h.offset < |buf| && buf[h.offset] == TypeOf(h.value) != EOO
        && ValueOffset(buf, h.offset) == h.ValueAt()
        && At(buf, h.ValueAt(), EncodeValue(h.value))
        && |EncodeValue(h.value)| <= |EncodeList(d)|
    decreases d
  {
    hide OnList, EncodeValue, ElementSize, FieldName, ValueOffset, At;
    OnListSteps(buf, p, theend, d);
    if d.Field? {
      ElementSizeExact(buf, d.name, d.value, p);
      if d.name != name {
        HitBytes(buf, p + |EncodeElement(d.name, d.value)|, theend, d.rest, name);
      }
    }
  }

  method GetField(buf: Bytes, start: nat, name: Bytes, ghost d: Doc) returns (r: Found)
    requires IsObj(buf, start, d)
    ensures Same(Find(d, start + 4, name), r)
    ensures r == Eoo <==> name !in FieldNames(d)
    ensures forall k: nat :: IsFirst(FieldNames(d), name, k) ==> k < |Offsets(d, start + 4)| && r == Element(Offsets(d, start + 4)[k])
  {
    hide I32, ElementSize, OnList, At, EncodeElement, FieldName, FieldNames, Offsets, IsFirst;
    DocIsList(buf, start, d);
    forall k: nat | IsFirst(FieldNames(d), name, k)
      ensures k < |Offsets(d, start + 4)| && Find(d, start + 4, name).Hit?
      ensures Find(d, start + 4, name).offset == Offsets(d, start + 4)[k]
    {
      FindIsFirst(d, start + 4, name, k);
    }
    FindIffNamed(d, start + 4, name);
    var i := new BSONObjIterator(buf, start);
    ghost var rest := d;
    while i.More()
      invariant i.buf == buf && i.theend == start + |EncodeDoc(d)| - 1
      invariant 0 <= i.pos && OnList(buf, i.pos, i.theend, rest)
      invariant Find(rest, i.pos, name) == Find(d, start + 4, name)
      decreases rest
    {
      OnListSteps(buf, i.pos, i.theend, rest);
      var e := i.Next();
      if FieldName(buf, e.offset) == name {
        return Element(e.offset);
      }
      rest := rest.rest;
    }
    OnListSteps(buf, i.pos, i.theend, rest);
    return Eoo;
  }

  /** The start of the named object or array; None stands for the empty BSONObj. */
  datatype Obj = None | ObjAt(start: nat)

  /** An embedded document found in the tree is an object in the bytes, one level deeper. */
  lemma SubObj(buf: Bytes, start: nat, d: Doc, name: Bytes)
    requires IsObj(buf, start, d)
    ensures var h := Find(d, start + 4, name);
      h.Hit? ==>
        && h.offset < |buf| && buf[h.offset] == TypeOf(h.value)
        && ValueOffset(buf, h.offset) == h.ValueAt()
        && (IsEmbedded(TypeOf(h.value)) <==> h.value.Embedded?)
        && (h.value.Embedded? ==> IsObj(buf, h.ValueAt(), h.value.doc))
  {
    hide OnList, At, ValueOffset, I32, EncodeDoc;
    DocIsList(buf, start, d);
    HitBytes(buf, start + 4, start + |EncodeDoc(d)| - 1, d, name);
  }

  method GetObjectField(buf: Bytes, start: nat, name: Bytes, ghost d: Doc) returns (r: Obj)
    requires IsObj(buf, start, d)
    ensures var h := Find(d, start + 4, name);
      if h.Hit? && h.value.Embedded? then r == ObjAt(h.ValueAt()) && IsObj(buf, h.ValueAt(), h.value.doc) else r == None
    ensures r != None ==> name in FieldNames(d)
  {
    hide IsObj, Find, ValueOffset, FieldNames;
    SubObj(buf, start, d, name);
    var e := GetField(buf, start, name, d);
    if e == Eoo {
      return None;
    }
    return if buf[e.offset] in {OBJECT, ARRAY} then ObjAt(ValueOffset(buf, e.offset)) else None;
  }

  /** Byte-level dotted lookup is lookup in the tree. */
  method GetFieldDotted(buf: Bytes, start: nat, name: Bytes, ghost d: Doc) returns (r: Found)
    requires IsObj(buf, start, d)
    ensures Same(FindDotted(d, start + 4, name), r)
    decreases |name|
  {
    hide IsObj, Find, I32;
    r := GetField(buf, start, name, d);
    var k := FirstDot(name);
    if r == Eoo && k < |name| {
      var sub := GetObjectField(buf, start, name[..k], d);
      if sub == None {
        return Eoo;
      }
      ghost var inner := Find(d, start + 4, name[..k]).value.doc;
      EmptyBySize(buf, sub.start, inner);
      if I32(buf, sub.start) <= 5 {
        return Eoo;
      }
      r := GetFieldDotted(buf, sub.start, name[k + 1..], inner);
    }
  }

  /** BSONObj::isEmpty compares the size with 5. */
  lemma EmptyBySize(buf: Bytes, start: nat, d: Doc)
    requires IsObj(buf, start, d)
    ensures start + 4 <= |buf| && ValidSize(I32(buf, start))
    ensures I32(buf, start) <= 5 <==> d == Empty
  {
    hide I32;
    DocSize(buf, start, d);
    if d.Field? {
      assert |EncodeList(d)| >= |EncodeElement(d.name, d.value)| > 0;
    }
  }

  /**
   Dotted lookup case by case: a field of the whole name; else, with a dot in
   the name, what stands in the first field of the name before it; else none.
   */
  lemma DottedCases(d: Doc, p: nat, a: Bytes, b: Bytes)
    requires forall i :: 0 <= i < |a| ==> a[i] != DOT
    ensures FindDotted(d, p, a) == Find(d, p, a)
    ensures var name, h := a + [DOT] + b, Find(d, p, a);
      FindDotted(d, p, name) ==
        if name in FieldNames(d) then Find(d, p, name)
        else if h.Hit? && h.value.Embedded? then FindDotted(h.value.doc, h.ValueAt() + 4, b)
        else Miss
  {
    hide Find, FirstDot, Hit.ValueAt, FieldNames;
    var name := a + [DOT] + b;
    assert name[|a|] == DOT;
    FirstDotIs(name, |a|);
    assert FirstDot(a) == |a|;
    assert name[..|a|] == a && name[|a| + 1..] == b;
    FindIffNamed(d, p, name);
    var h := Find(d, p, a);
    if h.Hit? && h.value.Embedded? && h.value.doc == Empty {
      FindDottedEmpty(h.ValueAt() + 4, b);
    }
  }

  // ----- dotted lookup composes -----

  predicate DotFree(name: Bytes) { forall i :: 0 <= i < |name| ==> name[i] != DOT }

  /**
   No dotted name in the documents that lookup can reach: at this level, and
   inside the first field of each name. Later fields of a name are never seen.
   */
  ghost predicate Clean(d: Doc) {
    forall n: Bytes :: Find(d, 0, n).Hit? ==>
      DotFree(n) && (Find(d, 0, n).value.Embedded? ==> Clean(Find(d, 0, n).value.doc))
  }

  /** Where a document stands makes no difference to what is found in it. */
  lemma {:induction false} FindMoves(d: Doc, p: nat, q: nat, name: Bytes)
    ensures Find(d, p, name).Hit? <==> Find(d, q, name).Hit?
    ensures Find(d, p, name).Hit? ==> Find(d, p, name).value == Find(d, q, name).value
    decreases d
  {
    if d.Field? && d.name != name {
      var n := |EncodeElement(d.name, d.value)|;
      FindMoves(d.rest, p + n, q + n, name);
    }
  }

  lemma FindClean(d: Doc, p: nat, name: Bytes)
    requires Clean(d)
    ensures Find(d, p, name).Hit? ==>
      DotFree(name) && (Find(d, p, name).value.Embedded? ==> Clean(Find(d, p, name).value.doc))
  {
    hide Find;
    FindMoves(d, 0, p, name);
  }

  lemma FirstDotIs(name: Bytes, k: nat)
    requires k < |name| && name[k] == DOT && forall i :: 0 <= i < k ==> name[i] != DOT
    ensures FirstDot(name) == k
  {
    assert FirstDot(name) < |name| ==> name[FirstDot(name)] == name[k];
  }

  /** Looking up a.b is looking up b inside what a finds. */
  predicate Composes(d: Doc, p: nat, a: Bytes, b: Bytes) {
    FindDotted(d, p, a + [DOT] + b) == FindInside(FindDotted(d, p, a), b)
  }

  lemma {:induction false} DottedComposes(d: Doc, p: nat, a: Bytes, b: Bytes)
    requires Clean(d)
    ensures Composes(d, p, a, b)
    decreases |a|
  {
    hide Find, FirstDot, Hit.ValueAt, Clean;
    var name := a + [DOT] + b;
    var k := FirstDot(a);
    assert name[|a|] == DOT;
    FindClean(d, p, name);
    FirstDotIs(name, k);
    assert name[..k] == a[..k];
    FindClean(d, p, a);
    FindClean(d, p, a[..k]);
    var h := Find(d, p, a[..k]);
    if k == |a| {
      assert a[..k] == a && name[k + 1..] == b;
      if h.Hit? && h.value.Embedded? && h.value.doc == Empty {
        FindDottedEmpty(h.ValueAt() + 4, b);
      }
    } else {
      assert name[k + 1..] == a[k + 1..] + [DOT] + b;
      if h.Hit? && h.value.Embedded? && h.value.doc != Empty {
        DottedComposes(h.value.doc, h.ValueAt() + 4, a[k + 1..], b);
      }
    }
  }

  // ----- and only without dotted names -----

  /** Two fields of different names stand one behind the other. */
  lemma {:induction false} Siblings(d: Doc, p: nat, a: Bytes, b: Bytes)
    requires a != b && Find(d, p, a).Hit? && Find(d, p, b).Hit?
    ensures var h, g := Find(d, p, a), Find(d, p, b);
      h.offset + |EncodeElement(h.name, h.value)| <= g.offset || g.offset + |EncodeElement(g.name, g.value)| <= h.offset
    decreases d
  {
    var q := p + |EncodeElement(d.name, d.value)|;
    if d.name == a {
      FindRange(d.rest, q, b);
    } else if d.name == b {
      FindRange(d.rest, q, a);
    } else {
      Siblings(d.rest, q, a, b);
    }
  }

  lemma {:induction false} FindRange(d: Doc, p: nat, name: Bytes)
    requires Find(d, p, name).Hit?
    ensures var h := Find(d, p, name);
      p <= h.offset && h.offset + |EncodeElement(h.name, h.value)| <= p + |EncodeList(d)|
    decreases d
  {
    if d.name != name {
      FindRange(d.rest, p + |EncodeElement(d.name, d.value)|, name);
    }
  }

  lemma EmbeddedSize(h: Hit)
    requires h.Hit? && h.value.Embedded?
    ensures h.offset < h.ValueAt() && h.ValueAt() + 4 + |EncodeList(h.value.doc)| < h.offset + |EncodeElement(h.name, h.value)|
  {
  }

  lemma {:induction false} DottedRange(d: Doc, p: nat, name: Bytes)
    ensures var h := FindDotted(d, p, name);
      h.Hit? ==> p <= h.offset < p + |EncodeList(d)|
    decreases |name|
  {
    hide Find, FirstDot, Hit.ValueAt, EncodeElement, EncodeList;
    var k := FirstDot(name);
    if Find(d, p, name).Hit? {
      FindRange(d, p, name);
      ElementNotEmpty(name, Find(d, p, name).value);
    } else if k < |name| {
      var h := Find(d, p, name[..k]);
      if h.Hit? && h.value.Embedded? {
        FindRange(d, p, name[..k]);
        EmbeddedSize(h);
        DottedRange(h.value.doc, h.ValueAt() + 4, name[k + 1..]);
      }
    }
  }

  lemma ElementNotEmpty(name: Bytes, v: Value)
    ensures |EncodeElement(name, v)| > 0
  {
  }

  /** What is found inside a field is not its sibling. */
  lemma DottedField(d: Doc, p: nat, n: Bytes) returns (a: Bytes, b: Bytes)
    requires Find(d, p, n).Hit? && !DotFree(n)
    ensures !Composes(d, p, a, b)
  {
    hide Find, FirstDot, Hit.ValueAt, EncodeElement, EncodeList;
    var k := FirstDot(n);
    a, b := n[..k], n[k + 1..];
    assert a + [DOT] + b == n;
    assert FirstDot(a) == |a|;
    var h := Find(d, p, a);
    if h.Hit? {
      Siblings(d, p, a, n);
      if h.value.Embedded? {
        EmbeddedSize(h);
        DottedRange(h.value.doc, h.ValueAt() + 4, b);
      }
    }
  }

  /** A law that fails inside the first field of a name fails with that name in front. */
  lemma FailsInside(d: Doc, p: nat, n: Bytes, a: Bytes, b: Bytes)
    requires Find(d, p, n).Hit? && Find(d, p, n).value.Embedded? && DotFree(n)
    requires forall m: Bytes :: Find(d, p, m).Hit? ==> DotFree(m)
    requires var h := Find(d, p, n); !Composes(h.value.doc, h.ValueAt() + 4, a, b)
    ensures !Composes(d, p, n + [DOT] + a, b)
  {
    hide Find, FindDotted, FirstDot, Hit.ValueAt;
    Into(d, p, n, a);
    Into(d, p, n, a + [DOT] + b);
    assert n + [DOT] + (a + [DOT] + b) == n + [DOT] + a + [DOT] + b;
  }

  lemma Into(d: Doc, p: nat, n: Bytes, rest: Bytes)
    requires Find(d, p, n).Hit? && Find(d, p, n).value.Embedded? && DotFree(n)
    requires Find(d, p, n + [DOT] + rest).Hit? ==> DotFree(n + [DOT] + rest)
    ensures var h := Find(d, p, n); FindDotted(d, p, n + [DOT] + rest) == FindDotted(h.value.doc, h.ValueAt() + 4, rest)
  {
    hide Find, FirstDot, Hit.ValueAt;
    var name := n + [DOT] + rest;
    assert name[|n|] == DOT;
    FirstDotIs(name, |n|);
    assert name[..|n|] == n && name[|n| + 1..] == rest;
    var h := Find(d, p, n);
    if h.value.doc == Empty {
      FindDottedEmpty(h.ValueAt() + 4, rest);
    }
  }

  lemma {:induction false} Breaks(d: Doc, p: nat) returns (a: Bytes, b: Bytes)
    requires !Clean(d)
    ensures !Composes(d, p, a, b)
    decreases d
  {
    hide Find, FirstDot, Hit.ValueAt, Composes;
    forall n: Bytes ensures Find(d, 0, n).Hit? <==> Find(d, p, n).Hit? {
      FindMoves(d, 0, p, n);
    }
    if n: Bytes :| Find(d, p, n).Hit? && !DotFree(n) {
      a, b := DottedField(d, p, n);
    } else {
      var n: Bytes :| Find(d, 0, n).Hit? && Find(d, 0, n).value.Embedded? && !Clean(Find(d, 0, n).value.doc);
      FindMoves(d, 0, p, n);
      var h := Find(d, p, n);
      a, b := Breaks(h.value.doc, h.ValueAt() + 4);
      FailsInside(d, p, n, a, b);
      a := n + [DOT] + a;
    }
  }

  /** Lookup composes along all paths if and only if no dotted name can be reached. */
  lemma ComposesIffClean(d: Doc, p: nat)
    ensures (forall a, b :: Composes(d, p, a, b)) <==> Clean(d)
  {
    hide Composes, Clean;
    if Clean(d) {
      forall a, b ensures Composes(d, p, a, b) {
        DottedComposes(d, p, a, b);
      }
    } else {
      var a, b := Breaks(d, p);
    }
  }

  lemma FindDottedEmpty(p: nat, name: Bytes)
    ensures FindDotted(Empty, p, name) == Miss
  {
  }

  /** With a dotted field name the law fails: the whole name wins over the path. */
  lemma DottedNameWins(v: Value, w: Value, p: nat)
    ensures var d := Field([97, DOT, 98], v, Field([97], Embedded(OBJECT, Field([98], w, Empty)), Empty));
      && FindDotted(d, p, [97] + [DOT] + [98]) == Hit(p, [97, DOT, 98], v)
      && FindInside(FindDotted(d, p, [97]), [98]).Hit?
      && FindInside(FindDotted(d, p, [97]), [98]).offset != p
  {
    hide FirstDot;
    var sub := Field([98], w, Empty);
    var rest := Field([97], Embedded(OBJECT, sub), Empty);
    var d := Field([97, DOT, 98], v, rest);
    assert [97] + [DOT] + [98] == [97, DOT, 98];
    var q := p + |EncodeElement([97, DOT, 98], v)|;
    assert Find(d, p, [97]) == Find(rest, q, [97]) == Hit(q, [97], Embedded(OBJECT, sub));
    assert FindDotted(d, p, [97]) == Hit(q, [97], Embedded(OBJECT, sub));
  }
}
