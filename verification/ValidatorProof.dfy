/**
The stack machine of the validator refines the recursive grammar: from the
first byte of an element list it gets, with the frames it started with, to
the EndObj state behind the list, and it can get there in no other way.
*/
module ValidatorProof {
  import opened Bson
  import opened ValidatorMachine

  // ----- element boundaries of a document tree -----

  /** Offsets of all elements of the list at p, nested ones included, each list ending in its EOO. */
  function Boundaries(d: Doc, p: nat): seq<nat> {
    match d
    case Empty => [p]
    case Field(name, value, rest) =>
      [p] + ValueBoundaries(value, p + |ElementHeader(TypeOf(value), name)|)
      + Boundaries(rest, p + |EncodeElement(name, value)|)
  }

  function ValueBoundaries(v: Value, p: nat): seq<nat> {
    match v
    case Embedded(_, doc) => Boundaries(doc, p + 4)
    case CodeWScope(code, scope) => Boundaries(scope, p + 4 + |EncodeString(code)| + 4)
    case _ => []
  }

  predicate Plain(v: Value) { !v.Embedded? && !v.CodeWScope? }

  // ----- values without nested documents -----

  /** A string of the grammar at p is read whole, and nothing else is, as long as its prefix is sane. */
  lemma StringAt(buf: Bytes, p: nat, s: Bytes)
    requires p + |s| + 1 < TWO31
    requires At(buf, p, EncodeString(s))
    ensures p + 4 <= |buf| && I32(buf, p) == |s| + 1
    ensures ReadUTF8String(buf, p) == Good(p + |EncodeString(s)|)
  {
    hide I32, ReadUTF8String;
    AtConcat(buf, p, Le32(|s| + 1), EncodeCString(s));
    AtI32(buf, p, |s| + 1);
    AtConcat(buf, p + 4, s, [0]);
    AtByte(buf, p + 4 + |s|, 0);
    SaneString(buf, p);
  }

  lemma StringRead(buf: Bytes, p: nat) returns (s: Bytes)
    requires p < TWO31 + 4 && p + 4 <= |buf| && I32(buf, p) >= 1
    requires ReadUTF8String(buf, p).Good?
    ensures At(buf, p, EncodeString(s)) && ReadUTF8String(buf, p).pos == p + |EncodeString(s)|
  {
    hide I32, ReadUTF8String;
    SaneString(buf, p);
    s := buf[p + 4..p + 3 + I32(buf, p)];
    AtByte(buf, p + 4 + |s|, 0);
    AtConcat(buf, p + 4, s, [0]);
    AtI32(buf, p, |s| + 1);
    AtConcat(buf, p, Le32(|s| + 1), EncodeCString(s));
  }

  lemma CStringAt(buf: Bytes, p: nat, s: Bytes)
    requires NulFree(s) && At(buf, p, EncodeCString(s))
    ensures ReadCString(buf, p) == Good(p + |s| + 1) && p + |s| < |buf|
  {
    AtCString(buf, p, s);
  }

  lemma CStringRead(buf: Bytes, p: nat) returns (s: Bytes)
    requires p <= |buf| && ReadCString(buf, p).Good?
    ensures NulFree(s) && At(buf, p, EncodeCString(s))
    ensures ReadCString(buf, p).pos == p + |s| + 1 <= |buf|
  {
    s := buf[p..FindNul(buf, p)];
    AtCString(buf, p, s);
  }

  lemma FixedComplete(buf: Bytes, v: Value, p: nat)
    requires v.Fixed? && GoodValue(v) && p + |v.raw| < |buf| && p < TWO31
    ensures ValueInfo(buf, v.tag, p) == Proceed(p + |v.raw|, WithinObj) && SaneValue(buf, v.tag, p)
  {
    hide I32, SkipOver;
    SaneSkip(buf, p, FixedSize(v.tag));
  }

  lemma BinaryComplete(buf: Bytes, v: Value, p: nat)
    requires v.Binary? && At(buf, p, EncodeValue(v))
    requires p + |EncodeValue(v)| < |buf| && p + |EncodeValue(v)| + 1 < TWO31
    ensures ValueInfo(buf, BIN_DATA, p) == Proceed(p + |EncodeValue(v)|, WithinObj) && SaneValue(buf, BIN_DATA, p)
  {
    hide I32, SkipOver;
    AtConcat(buf, p, Le32(|v.data|), [v.subtype] + v.data);
    AtI32(buf, p, |v.data|);
    SaneSkip(buf, p + 4, 1 + |v.data|);
  }

  lemma PlainComplete(buf: Bytes, v: Value, p: nat)
    requires Plain(v) && GoodValue(v) && At(buf, p, EncodeValue(v))
    requires p + |EncodeValue(v)| < |buf| && p + |EncodeValue(v)| + 1 < TWO31
    ensures ValueInfo(buf, TypeOf(v), p) == Proceed(p + |EncodeValue(v)|, WithinObj)
    ensures SaneValue(buf, TypeOf(v), p)
  {
    hide I32, ReadUTF8String, Skip, Wrap32, SkipOver, ReadCString, EncodeString;
    match v
    case Fixed(_, _) =>
      FixedComplete(buf, v, p);
    case Text(_, text) =>
      StringAt(buf, p, text);
    case DBRef(ns, oid) =>
      AtConcat(buf, p, EncodeString(ns), oid);
      StringAt(buf, p, ns);
    case Binary(_, _) =>
      BinaryComplete(buf, v, p);
    case Regex(pattern, options) =>
      AtConcat(buf, p, EncodeCString(pattern), EncodeCString(options));
      CStringAt(buf, p, pattern);
      CStringAt(buf, p + |pattern| + 1, options);
  }

  lemma BinaryRead(buf: Bytes, p: nat) returns (v: Value)
    requires p + 4 <= |buf| && I32(buf, p) >= 0 && p + 5 + I32(buf, p) <= |buf|
    ensures v.Binary? && At(buf, p, EncodeValue(v)) && |EncodeValue(v)| == 5 + I32(buf, p)
  {
    hide I32;
    var q := p + 5 + I32(buf, p);
    v := Binary(buf[p + 4], buf[p + 5..q]);
    assert buf[p + 4..q] == [v.subtype] + v.data;
    AtI32(buf, p, |v.data|);
    AtConcat(buf, p, Le32(|v.data|), [v.subtype] + v.data);
  }

  lemma DBRefRead(buf: Bytes, p: nat) returns (v: Value)
    requires p < TWO31 && p + 4 <= |buf| && I32(buf, p) >= 1
    requires ReadUTF8String(buf, p).Good? && ReadUTF8String(buf, p).pos + 12 <= |buf|
    ensures v.DBRef? && GoodValue(v)
    ensures At(buf, p, EncodeValue(v)) && ReadUTF8String(buf, p).pos + 12 == p + |EncodeValue(v)|
  {
    hide I32, ReadUTF8String, EncodeString;
    var ns := StringRead(buf, p);
    var q := p + |EncodeString(ns)|;
    v := DBRef(ns, buf[q..q + 12]);
    AtConcat(buf, p, EncodeString(ns), v.oid);
  }

  lemma RegexRead(buf: Bytes, p: nat) returns (v: Value)
    requires p <= |buf| && ReadCString(buf, p).Good? && ReadCString(buf, ReadCString(buf, p).pos).Good?
    ensures v.Regex? && GoodValue(v)
    ensures At(buf, p, EncodeValue(v)) && ReadCString(buf, ReadCString(buf, p).pos).pos == p + |EncodeValue(v)|
  {
    var pattern := CStringRead(buf, p);
    var options := CStringRead(buf, p + |pattern| + 1);
    v := Regex(pattern, options);
    AtConcat(buf, p, EncodeCString(pattern), EncodeCString(options));
  }

  lemma PlainSound(buf: Bytes, tag: Byte, p: nat) returns (v: Value)
    requires p <= |buf| && SaneValue(buf, tag, p)
    requires ValueInfo(buf, tag, p).Proceed? && ValueInfo(buf, tag, p).state == WithinObj
    requires ValueInfo(buf, tag, p).pos < |buf|
    ensures Plain(v) && GoodValue(v) && TypeOf(v) == tag
    ensures At(buf, p, EncodeValue(v)) && ValueInfo(buf, tag, p).pos == p + |EncodeValue(v)|
  {
    hide I32, ReadUTF8String, Skip, Wrap32, SkipOver, ReadCString;
    if IsFixed(tag) {
      SaneSkip(buf, p, FixedSize(tag));
      v := Fixed(tag, buf[p..p + FixedSize(tag)]);
    } else if IsText(tag) {
      SaneString(buf, p);
      var s := StringRead(buf, p);
      v := Text(tag, s);
    } else if tag == DB_REF {
      SaneString(buf, p);
      v := DBRefRead(buf, p);
    } else if tag == BIN_DATA {
      SaneSkip(buf, p + 4, 1 + I32(buf, p));
      v := BinaryRead(buf, p);
    } else {
      v := RegexRead(buf, p);
    }
  }

  // ----- element headers -----

  lemma HeaderAt(buf: Bytes, p: nat, tag: Byte, name: Bytes)
    requires NulFree(name) && tag != EOO && At(buf, p, ElementHeader(tag, name))
    ensures var q := p + |ElementHeader(tag, name)|;
      && q <= |buf| && buf[p] == tag
      && ElementInfo(buf, p) == ValueInfo(buf, tag, q)
      && (SaneElement(buf, p) <==> p < TWO31 && SaneValue(buf, tag, q))
  {
    hide ValueInfo, SaneValue, ReadCString;
    AtConcat(buf, p, [tag], EncodeCString(name));
    AtByte(buf, p, tag);
    CStringAt(buf, p + 1, name);
  }

  lemma HeaderRead(buf: Bytes, p: nat) returns (name: Bytes)
    requires p < |buf| && buf[p] != EOO && ReadCString(buf, p + 1).Good?
    ensures NulFree(name) && At(buf, p, ElementHeader(buf[p], name))
  {
    hide ReadCString;
    name := CStringRead(buf, p + 1);
    AtByte(buf, p, buf[p]);
    AtConcat(buf, p, [buf[p]], EncodeCString(name));
  }

  // ----- completeness: a document of the grammar drives the machine through -----

  /** The state in which the machine goes on behind a document that stood on these frames. */
  function AfterDoc(frames: seq<Frame>): State {
    if frames == [] then Done
    else if frames[|frames| - 1].IsCodeWithScope() then EndCodeWScope
    else WithinObj
  }

  /** From c the machine gets to b, looking at the given elements on the way. */
  predicate Drives(buf: Bytes, c: Config, b: Config, visits: seq<nat>) {
    && FramesOk(c) && FramesOk(b)
    && Run(buf, c) == Run(buf, b)
    && Visits(buf, c) == visits + Visits(buf, b)
  }

  lemma DrivesOn(buf: Bytes, c: Config, b: Config, a: Config, v: seq<nat>, w: seq<nat>)
    requires Drives(buf, c, b, v) && Drives(buf, b, a, w)
    ensures Drives(buf, c, a, v + w)
  {
    hide FramesOk, Run, Visits;
    assert v + (w + Visits(buf, a)) == (v + w) + Visits(buf, a);
  }

  lemma StepDrives(buf: Bytes, c: Config, b: Config)
    requires FramesOk(c) && c.state != Done && SaneStep(buf, c) && Step(buf, c) == Next(b)
    ensures Drives(buf, c, b, Here(c))
  {
    hide FramesOk, Run, Visits, Step, SaneStep;
    RunStep(buf, c, b);
  }

  /** The fall-through: opening an object is opening its frame and being within it. */
  lemma BeginFallsThrough(buf: Bytes, p: nat, frames: seq<Frame>)
    requires FramesOk(Config(p, frames, BeginObj)) && p + 4 <= |buf|
    ensures var f := OpenFrame(p, false, I32(buf, p));
      && FramesOk(Config(p + 4, frames + [f], WithinObj))
      && Drives(buf, Config(p, frames, BeginObj), Config(p + 4, frames + [f], WithinObj), [])
  {
    hide ElementInfo, SaneElement, I32, Run, Visits;
    var f := OpenFrame(p, false, I32(buf, p));
    var c, w := Config(p, frames, BeginObj), Config(p + 4, frames + [f], WithinObj);
    PushKeepsShape(frames, f);
    assert FramesOk(w);
    SameStep(buf, c, w);
  }

  lemma SameStep(buf: Bytes, c: Config, w: Config)
    requires FramesOk(c) && FramesOk(w) && c.state != Done && w.state != Done
    requires Step(buf, c) == Step(buf, w) && SaneStep(buf, c) == SaneStep(buf, w) && Here(c) == Here(w)
    ensures Drives(buf, c, w, [])
  {
    hide Step, SaneStep, FramesOk, Budget;
  }

  lemma {:induction false} ListComplete(buf: Bytes, d: Doc, p: nat, frames: seq<Frame>)
    requires GoodDoc(d) && At(buf, p, EncodeList(d) + [EOO]) && p + |EncodeList(d)| + 1 < TWO31
    requires FramesOk(Config(p, frames, WithinObj))
    ensures Drives(buf, Config(p, frames, WithinObj), Config(p + |EncodeList(d)| + 1, frames, EndObj), Boundaries(d, p))
    decreases d, 0
  {
    hide FramesOk, Run, Visits, Drives;
    var c := Config(p, frames, WithinObj);
    match d
    case Empty =>
      AtConcat(buf, p, [], [EOO]);
      AtByte(buf, p, EOO);
      StepDrives(buf, c, Config(p + 1, frames, EndObj));
    case Field(name, v, rest) =>
      var e := EncodeElement(name, v);
      assert EncodeList(d) + [EOO] == e + (EncodeList(rest) + [EOO]);
      AtConcat(buf, p, e, EncodeList(rest) + [EOO]);
      var b := Config(p + |e|, frames, WithinObj);
      ElementComplete(buf, name, v, p, frames);
      FramesOkMoves(c, b.pos);
      ListComplete(buf, rest, p + |e|, frames);
      DrivesOn(buf, c, b, Config(p + |EncodeList(d)| + 1, frames, EndObj),
        [p] + ValueBoundaries(v, p + |ElementHeader(TypeOf(v), name)|), Boundaries(rest, p + |e|));
  }

  lemma FramesOkMoves(c: Config, pos: nat)
    requires FramesOk(c)
    ensures FramesOk(c.(pos := pos))
  {
  }

  lemma {:induction false} ElementComplete(buf: Bytes, name: Bytes, v: Value, p: nat, frames: seq<Frame>)
    requires NulFree(name) && GoodValue(v) && At(buf, p, EncodeElement(name, v))
    requires p + |EncodeElement(name, v)| < |buf| && p + |EncodeElement(name, v)| + 1 < TWO31
    requires FramesOk(Config(p, frames, WithinObj))
    ensures Drives(buf, Config(p, frames, WithinObj), Config(p + |EncodeElement(name, v)|, frames, WithinObj),
              [p] + ValueBoundaries(v, p + |ElementHeader(TypeOf(v), name)|))
    decreases v, 2
  {
    hide Run, Visits, Drives, ElementInfo, SaneElement, ValueInfo, SaneValue, EncodeValue, FramesOk;
    var header := ElementHeader(TypeOf(v), name);
    var c := Config(p, frames, WithinObj);
    var q := p + |header|;
    AtConcat(buf, p, header, EncodeValue(v));
    HeaderAt(buf, p, TypeOf(v), name);
    if Plain(v) {
      PlainComplete(buf, v, q);
      StepDrives(buf, c, Config(q + |EncodeValue(v)|, frames, WithinObj));
      assert [p] + ValueBoundaries(v, q) == [p];
    } else {
      NestedComplete(buf, v, p, q, frames);
    }
  }

  lemma FramesOkOpens(p: nat, q: nat, frames: seq<Frame>)
    requires FramesOk(Config(p, frames, WithinObj))
    ensures FramesOk(Config(q, frames, BeginObj)) && FramesOk(Config(q, frames, BeginCodeWScope))
    ensures AfterDoc(frames) == WithinObj
  {
  }

  lemma NestedBegins(buf: Bytes, v: Value, q: nat)
    requires !Plain(v) && GoodValue(v) && q <= |buf| && q < TWO31
    ensures ValueInfo(buf, TypeOf(v), q) == Proceed(q, if v.Embedded? then BeginObj else BeginCodeWScope)
    ensures SaneValue(buf, TypeOf(v), q)
  {
    hide I32;
  }

  lemma {:induction false} NestedComplete(buf: Bytes, v: Value, p: nat, q: nat, frames: seq<Frame>)
    requires !Plain(v) && GoodValue(v) && p <= q && At(buf, q, EncodeValue(v))
    requires q + |EncodeValue(v)| + 1 < TWO31
    requires ElementInfo(buf, p) == ValueInfo(buf, TypeOf(v), q)
    requires SaneElement(buf, p) <==> p < TWO31 && SaneValue(buf, TypeOf(v), q)
    requires FramesOk(Config(p, frames, WithinObj))
    ensures Drives(buf, Config(p, frames, WithinObj), Config(q + |EncodeValue(v)|, frames, WithinObj),
              [p] + ValueBoundaries(v, q))
    decreases v, 1
  {
    hide Run, Visits, Drives, ElementInfo, SaneElement, I32, FramesOk, EncodeDoc, EncodeString, Frame.IsCodeWithScope,
      ValueInfo, SaneValue;
    var c, b := Config(p, frames, WithinObj), Config(q + |EncodeValue(v)|, frames, WithinObj);
    FramesOkOpens(p, q, frames);
    NestedBegins(buf, v, q);
    match v
    case Embedded(_, doc) =>
      var begin := Config(q, frames, BeginObj);
      StepDrives(buf, c, begin);
      DocComplete(buf, doc, q, frames);
      DrivesOn(buf, c, begin, b, [p], Boundaries(doc, q + 4));
    case CodeWScope(code, scope) =>
      var begin := Config(q, frames, BeginCodeWScope);
      StepDrives(buf, c, begin);
      CodeWScopeComplete(buf, code, scope, q, frames);
      DrivesOn(buf, c, begin, b, [p], ValueBoundaries(v, q));
  }

  lemma {:induction false} CodeWScopeComplete(buf: Bytes, code: Bytes, scope: Doc, q: nat, frames: seq<Frame>)
    requires GoodDoc(scope) && At(buf, q, EncodeValue(CodeWScope(code, scope)))
    requires q + CodeWScopeSize(code, scope) + 1 < TWO31
    requires FramesOk(Config(q, frames, BeginCodeWScope))
    ensures |EncodeValue(CodeWScope(code, scope))| == CodeWScopeSize(code, scope)
    ensures Drives(buf, Config(q, frames, BeginCodeWScope),
              Config(q + CodeWScopeSize(code, scope), frames, WithinObj),
              Boundaries(scope, q + 4 + |EncodeString(code)| + 4))
    decreases scope, 2
  {
    hide Run, Visits, Drives, I32, FramesOk, EncodeDoc, EncodeString;
    var size := CodeWScopeSize(code, scope);
    var s := q + 4 + |EncodeString(code)|;
    AtConcat(buf, q, Le32(size), EncodeString(code) + EncodeDoc(scope));
    AtConcat(buf, q + 4, EncodeString(code), EncodeDoc(scope));
    var f := OpenFrame(q, true, size);
    var c := Config(q, frames, BeginCodeWScope);
    var begin := Config(s, frames + [f], BeginObj);
    var end := Config(q + size, frames + [f], EndCodeWScope);
    OpenCodeWScope(buf, code, size, q, frames);
    DocComplete(buf, scope, s, frames + [f]);
    CloseCodeWScope(buf, size, q, frames);
    DrivesOn(buf, c, begin, end, [], Boundaries(scope, s + 4));
    DrivesOn(buf, c, end, Config(q + size, frames, WithinObj), [] + Boundaries(scope, s + 4), []);
    assert [] + Boundaries(scope, s + 4) + [] == Boundaries(scope, s + 4);
  }

  lemma OpenCodeWScope(buf: Bytes, code: Bytes, size: nat, q: nat, frames: seq<Frame>)
    requires At(buf, q, Le32(size)) && At(buf, q + 4, EncodeString(code))
    requires size < TWO31 && q + |code| + 5 < TWO31
    requires FramesOk(Config(q, frames, BeginCodeWScope))
    ensures Drives(buf, Config(q, frames, BeginCodeWScope),
              Config(q + 4 + |EncodeString(code)|, frames + [OpenFrame(q, true, size)], BeginObj), [])
    ensures FramesOk(Config(q + 4 + |EncodeString(code)|, frames + [OpenFrame(q, true, size)], BeginObj))
  {
    hide Run, Visits, Drives, I32, ReadUTF8String, OpenFrame, FramesOk;
    AtI32(buf, q, size);
    StringAt(buf, q + 4, code);
    var c := Config(q, frames, BeginCodeWScope);
    StepDrives(buf, c, Config(q + 4 + |EncodeString(code)|, frames + [OpenFrame(q, true, size)], BeginObj));
    StepKeepsFrames(buf, c);
  }

  lemma CloseCodeWScope(buf: Bytes, size: nat, q: nat, frames: seq<Frame>)
    requires q + size < TWO31
    requires FramesOk(Config(q, frames, BeginCodeWScope))
    ensures var f := OpenFrame(q, true, size);
      && AfterDoc(frames + [f]) == EndCodeWScope
      && Drives(buf, Config(q + size, frames + [f], EndCodeWScope), Config(q + size, frames, WithinObj), [])
  {
    hide Run, Visits, Drives, OpenFrame, ActualLength, ElementInfo, ReadUTF8String, I32, Frame.StartPosition;
    var f := OpenFrame(q, true, size);
    PushKeepsShape(frames, f);
    var end := Config(q + size, frames + [f], EndCodeWScope);
    ExactLength(q, q + size, frames, f, EndCodeWScope);
    StepDrives(buf, end, Config(q + size, frames, WithinObj));
  }

  lemma {:induction false} DocComplete(buf: Bytes, d: Doc, p: nat, frames: seq<Frame>)
    requires GoodDoc(d) && At(buf, p, EncodeDoc(d)) && p + |EncodeDoc(d)| < TWO31
    requires FramesOk(Config(p, frames, BeginObj))
    ensures Drives(buf, Config(p, frames, BeginObj), Config(p + |EncodeDoc(d)|, frames, AfterDoc(frames)),
              Boundaries(d, p + 4))
    decreases d, 1
  {
    hide Run, Visits, Drives, I32, FramesOk, OpenFrame;
    var size := |EncodeDoc(d)|;
    AtConcat(buf, p, Le32(size), EncodeList(d) + [EOO]);
    AtI32(buf, p, size);
    var f := OpenFrame(p, false, size);
    var c := Config(p, frames, BeginObj);
    var within := Config(p + 4, frames + [f], WithinObj);
    var end := Config(p + size, frames + [f], EndObj);
    BeginFallsThrough(buf, p, frames);
    ListComplete(buf, d, p + 4, frames + [f]);
    CloseDoc(buf, size, p, frames);
    DrivesOn(buf, c, within, end, [], Boundaries(d, p + 4));
    DrivesOn(buf, c, end, Config(p + size, frames, AfterDoc(frames)), [] + Boundaries(d, p + 4), []);
    assert [] + Boundaries(d, p + 4) + [] == Boundaries(d, p + 4);
  }

  lemma CloseDoc(buf: Bytes, size: nat, p: nat, frames: seq<Frame>)
    requires p + size < TWO31
    requires FramesOk(Config(p, frames, BeginObj))
    ensures var f := OpenFrame(p, false, size);
      Drives(buf, Config(p + size, frames + [f], EndObj), Config(p + size, frames, AfterDoc(frames)), [])
  {
    hide Run, Visits, Drives, OpenFrame, ActualLength, ElementInfo, ReadUTF8String, I32, Frame.StartPosition;
    var f := OpenFrame(p, false, size);
    PushKeepsShape(frames, f);
    var end := Config(p + size, frames + [f], EndObj);
    ExactLength(p, p + size, frames, f, EndObj);
    StepDrives(buf, end, Config(p + size, frames, AfterDoc(frames)));
  }

  // ----- soundness: an accepting run has read a document of the grammar -----

  lemma AcceptUnfolds(buf: Bytes, c: Config)
    requires FramesOk(c) && c.state != Done && Run(buf, c) == Accept
    ensures SaneStep(buf, c) && Step(buf, c).Next?
    ensures FramesOk(Step(buf, c).c) && Run(buf, Step(buf, c).c) == Accept
  {
    hide Step, SaneStep, FramesOk, Budget;
    if SaneStep(buf, c) {
      StepKeepsFrames(buf, c);
    }
  }

  /** An accepting run reads a further byte from every place where it is within an object. */
  lemma AcceptReads(buf: Bytes, c: Config)
    requires FramesOk(c) && c.state == WithinObj && Run(buf, c) == Accept
    ensures c.pos < |buf| && SaneElement(buf, c.pos) && ElementInfo(buf, c.pos).Proceed?
    ensures var i := ElementInfo(buf, c.pos);
      FramesOk(Config(i.pos, c.frames, i.state)) && Run(buf, Config(i.pos, c.frames, i.state)) == Accept
    ensures buf[c.pos] != EOO ==> ReadCString(buf, c.pos + 1).Good?
  {
    hide Run, FramesOk, SaneElement, ValueInfo;
    AcceptUnfolds(buf, c);
  }

  lemma {:induction false} ListSound(buf: Bytes, p: nat, frames: seq<Frame>) returns (d: Doc)
    requires FramesOk(Config(p, frames, WithinObj)) && Run(buf, Config(p, frames, WithinObj)) == Accept
    ensures GoodDoc(d) && At(buf, p, EncodeList(d) + [EOO])
    ensures var end := Config(p + |EncodeList(d)| + 1, frames, EndObj);
      FramesOk(end) && Run(buf, end) == Accept
    decreases Budget(buf, Config(p, frames, WithinObj)), 0
  {
    hide Run, ElementInfo, ValueInfo, SaneElement, SaneValue, FramesOk, ReadCString;
    var c := Config(p, frames, WithinObj);
    AcceptReads(buf, c);
    if buf[p] == EOO {
      d := Empty;
      EooSound(buf, p, frames);
    } else {
      var name, v := ElementSound(buf, p, frames);
      var e := EncodeElement(name, v);
      var rest := ListSound(buf, p + |e|, frames);
      d := Field(name, v, rest);
      AtConcat(buf, p, e, EncodeList(rest) + [EOO]);
      assert EncodeList(d) + [EOO] == e + (EncodeList(rest) + [EOO]);
    }
  }

  lemma EooSound(buf: Bytes, p: nat, frames: seq<Frame>)
    requires p < |buf| && buf[p] == EOO
    ensures ElementInfo(buf, p) == Proceed(p + 1, EndObj)
    ensures At(buf, p, EncodeList(Empty) + [EOO])
  {
    AtByte(buf, p, EOO);
    assert EncodeList(Empty) + [EOO] == [EOO];
  }

  lemma {:induction false} ElementSound(buf: Bytes, p: nat, frames: seq<Frame>) returns (name: Bytes, v: Value)
    requires FramesOk(Config(p, frames, WithinObj)) && Run(buf, Config(p, frames, WithinObj)) == Accept
    requires p < |buf| && buf[p] != EOO
    ensures NulFree(name) && GoodValue(v) && At(buf, p, EncodeElement(name, v))
    ensures var b := Config(p + |EncodeElement(name, v)|, frames, WithinObj);
      FramesOk(b) && Run(buf, b) == Accept
    decreases Budget(buf, Config(p, frames, WithinObj)), -1
  {
    hide Run, ElementInfo, ValueInfo, SaneElement, SaneValue, FramesOk, ReadCString;
    var c := Config(p, frames, WithinObj);
    AcceptReads(buf, c);
    name := HeaderRead(buf, p);
    var tag, header := buf[p], ElementHeader(buf[p], name);
    var q := p + |header|;
    HeaderAt(buf, p, tag, name);
    var i := ValueInfo(buf, tag, q);
    if i.state == WithinObj {
      AcceptReads(buf, Config(i.pos, frames, WithinObj));
      v := PlainSound(buf, tag, q);
    } else {
      FramesOkMoves(c, q);
      v := NestedSound(buf, tag, q, frames);
    }
    AtConcat(buf, p, header, EncodeValue(v));
  }

  lemma NestedTag(buf: Bytes, tag: Byte, q: nat)
    requires q <= |buf| && ValueInfo(buf, tag, q).Proceed? && ValueInfo(buf, tag, q).state != WithinObj
    ensures if tag in {OBJECT, ARRAY} then ValueInfo(buf, tag, q) == Proceed(q, BeginObj)
      else tag == CODE_W_SCOPE && ValueInfo(buf, tag, q) == Proceed(q, BeginCodeWScope)
  {
    hide I32, FindNul, ReadUTF8String;
  }

  lemma {:induction false} NestedSound(buf: Bytes, tag: Byte, q: nat, frames: seq<Frame>) returns (v: Value)
    requires q <= |buf| && ValueInfo(buf, tag, q).Proceed? && ValueInfo(buf, tag, q).state != WithinObj
    requires FramesOk(Config(q, frames, WithinObj))
    requires var i := ValueInfo(buf, tag, q);
      FramesOk(Config(i.pos, frames, i.state)) && Run(buf, Config(i.pos, frames, i.state)) == Accept
    ensures GoodValue(v) && TypeOf(v) == tag && At(buf, q, EncodeValue(v))
    ensures var b := Config(q + |EncodeValue(v)|, frames, WithinObj);
      FramesOk(b) && Run(buf, b) == Accept
    decreases Budget(buf, Config(q, frames, WithinObj)), 2
  {
    hide Run, FramesOk, I32, EncodeDoc, ValueInfo;
    FramesOkOpens(q, q, frames);
    NestedTag(buf, tag, q);
    if tag in {OBJECT, ARRAY} {
      var doc := DocSound(buf, q, frames);
      v := Embedded(tag, doc);
    } else {
      v := CodeWScopeSound(buf, q, frames);
    }
  }

  lemma {:induction false} CodeWScopeSound(buf: Bytes, q: nat, frames: seq<Frame>) returns (v: Value)
    requires FramesOk(Config(q, frames, BeginCodeWScope)) && Run(buf, Config(q, frames, BeginCodeWScope)) == Accept
    ensures v.CodeWScope? && GoodValue(v) && At(buf, q, EncodeValue(v))
    ensures var b := Config(q + |EncodeValue(v)|, frames, WithinObj);
      FramesOk(b) && Run(buf, b) == Accept
    decreases Budget(buf, Config(q, frames, WithinObj)), 1
  {
    hide Run, FramesOk, I32, ReadUTF8String, EncodeString, EncodeDoc, OpenFrame;
    var c := Config(q, frames, BeginCodeWScope);
    AcceptUnfolds(buf, c);
    SaneString(buf, q + 4);
    var code := StringRead(buf, q + 4);
    var s := q + 4 + |EncodeString(code)|;
    var f := OpenFrame(q, true, I32(buf, q));
    assert f.IsCodeWithScope();
    var scope := DocSound(buf, s, frames + [f]);
    v := CodeWScope(code, scope);
    var size := CodeWScopeSize(code, scope);
    CodeWScopeClosed(buf, q, q + size, frames);
    AtI32(buf, q, size);
    AtConcat(buf, q + 4, EncodeString(code), EncodeDoc(scope));
    AtConcat(buf, q, Le32(size), EncodeString(code) + EncodeDoc(scope));
  }

  lemma ExactLength(p: nat, end: nat, frames: seq<Frame>, f: Frame, state: State)
    requires p <= end < TWO31 && f.StartPosition() == p
    ensures ActualLength(Config(end, frames + [f], state)) == end - p
    ensures Config(end, frames + [f], state).Pop() == frames
  {
    hide Wrap32;
  }

  lemma CodeWScopeClosed(buf: Bytes, q: nat, end: nat, frames: seq<Frame>)
    requires q + 4 <= |buf| && q < TWO31 && q <= end
    requires var c := Config(end, frames + [OpenFrame(q, true, I32(buf, q))], EndCodeWScope);
      FramesOk(c) && Run(buf, c) == Accept
    ensures end - q < TWO31 && I32(buf, q) == end - q
    ensures FramesOk(Config(end, frames, WithinObj)) && Run(buf, Config(end, frames, WithinObj)) == Accept
  {
    hide Run, FramesOk, I32, ActualLength, AfterElement, ReadUTF8String, OpenFrame, Frame.IsCodeWithScope, Frame.StartPosition;
    var f := OpenFrame(q, true, I32(buf, q));
    AcceptUnfolds(buf, Config(end, frames + [f], EndCodeWScope));
    ExactLength(q, end, frames, f, EndCodeWScope);
  }

  lemma {:induction false} DocSound(buf: Bytes, p: nat, frames: seq<Frame>) returns (d: Doc)
    requires FramesOk(Config(p, frames, BeginObj)) && Run(buf, Config(p, frames, BeginObj)) == Accept
    ensures GoodDoc(d) && At(buf, p, EncodeDoc(d)) && p + |EncodeDoc(d)| < TWO31
    ensures var b := Config(p + |EncodeDoc(d)|, frames, AfterDoc(frames));
      FramesOk(b) && Run(buf, b) == Accept
    decreases Budget(buf, Config(p, frames, WithinObj)), 0
  {
    hide Run, Visits, FramesOk, I32, OpenFrame, SaneElement;
    var c := Config(p, frames, BeginObj);
    DocOpened(buf, p, frames);
    BeginFallsThrough(buf, p, frames);
    var f := OpenFrame(p, false, I32(buf, p));
    d := ListSound(buf, p + 4, frames + [f]);
    var size := |EncodeDoc(d)|;
    DocClosed(buf, p, p + size, frames);
    AtI32(buf, p, size);
    AtConcat(buf, p, Le32(size), EncodeList(d) + [EOO]);
  }

  lemma DocOpened(buf: Bytes, p: nat, frames: seq<Frame>)
    requires FramesOk(Config(p, frames, BeginObj)) && Run(buf, Config(p, frames, BeginObj)) == Accept
    ensures p + 4 <= |buf| && p < TWO31
  {
    hide Run, FramesOk, I32, AfterElement;
    AcceptUnfolds(buf, Config(p, frames, BeginObj));
  }

  lemma DocClosed(buf: Bytes, p: nat, end: nat, frames: seq<Frame>)
    requires p + 4 <= |buf| && p < TWO31 && p <= end
    requires var c := Config(end, frames + [OpenFrame(p, false, I32(buf, p))], EndObj);
      FramesOk(c) && Run(buf, c) == Accept
    ensures end < TWO31 && I32(buf, p) == end - p
    ensures var b := Config(end, frames, AfterDoc(frames));
      FramesOk(b) && Run(buf, b) == Accept
  {
    hide Run, FramesOk, I32, ActualLength, AfterElement, ReadUTF8String, OpenFrame, Frame.IsCodeWithScope, Frame.StartPosition;
    var f := OpenFrame(p, false, I32(buf, p));
    AcceptUnfolds(buf, Config(end, frames + [f], EndObj));
    ExactLength(p, end, frames, f, EndObj);
  }

  // ----- the two directions together -----

  /** Some prefix of buf is a document of the grammar. */
  ghost predicate HasDocument(buf: Bytes) {
    exists d :: Representable(d) && At(buf, 0, EncodeDoc(d))
  }

  /** The machine accepts with sane lengths exactly the buffers that start with a document. */
  lemma RunRefinesGrammar(buf: Bytes)
    ensures Run(buf, Start) == Accept <==> HasDocument(buf)
  {
    hide Run, Visits;
    if Run(buf, Start) == Accept {
      var d := DocSound(buf, 0, []);
      assert Representable(d);
    }
    if HasDocument(buf) {
      var d :| Representable(d) && At(buf, 0, EncodeDoc(d));
      DocComplete(buf, d, 0, []);
      RunDone(buf, Config(|EncodeDoc(d)|, [], Done));
    }
  }

  lemma RunDone(buf: Bytes, c: Config)
    requires FramesOk(c) && c.state == Done
    ensures Run(buf, c) == Accept && Visits(buf, c) == []
  {
  }

  /** On a document the validator looks at exactly the element boundaries of the tree, in order. */
  lemma VisitsAreBoundaries(buf: Bytes, d: Doc)
    requires Representable(d) && At(buf, 0, EncodeDoc(d))
    ensures Visits(buf, Start) == Boundaries(d, 4)
  {
    hide Run, Visits;
    DocComplete(buf, d, 0, []);
    RunDone(buf, Config(|EncodeDoc(d)|, [], Done));
  }
}
