/**
BSONElement::woCompare and BSONObj::woCompare. Every element has a flat key, a
sequence of atoms; comparing two elements gives the lexicographic order of
their keys, which makes it a total preorder on whole document trees.
*/
module Ordering {
  import opened Bson
  import opened Doubles

  // ----- the pieces of a comparison -----

  /** The result of a comparison, or the exception of Date() on an element that is none. */
  datatype Result = Threw | Is(x: int)

  /** Goes on to the next criterion when this one finds no difference. */
  function Then(x: int, next: Result): Result { if x != 0 then Is(x) else next }

  function Memcmp(a: Bytes, b: Bytes): int
    requires |a| == |b|
  {
    if a == [] then 0 else if a[0] != b[0] then a[0] as int - b[0] as int else Memcmp(a[1..], b[1..])
  }

  /** strcmp on the texts of two C strings. */
  function Strcmp(a: Bytes, b: Bytes): int
    decreases |a|
  {
    if a == [] && b == [] then 0
    else if a == [] then -1
    else if b == [] then 1
    else if a[0] != b[0] then a[0] as int - b[0] as int
    else Strcmp(a[1..], b[1..])
  }

  function Compare(a: int, b: int): int { if a < b then -1 else if a == b then 0 else 1 }

  function CompareDoubles(left: Double, right: Double): int {
    if left.Finite? && right.Finite? then (if left.r < right.r then -1 else if left.r == right.r then 0 else 1)
    else if left == right then 0
    else if left == NaN || right == PosInf then -1
    else if right == NaN || left == PosInf then 1
    else if left == NegInf then -1
    else 1
  }

  /** Strings are compared with their terminators, so that zeros inside them count; the longer one is greater. */
  function CompareStrings(a: Bytes, b: Bytes): int {
    var l, r := a + [0], b + [0];
    var common := if |l| < |r| then |l| else |r|;
    var res := Memcmp(l[..common], r[..common]);
    if res != 0 then res else |l| - |r|
  }

  function CStr(bytes: Bytes): Bytes { bytes[..FindNul(bytes, 0)] }

  /** The two C strings that a code-with-scope comparison reads: the code, and what follows its first NUL. */
  function CodeBytes(code: Bytes, scope: Doc): Bytes { code + ([0] + EncodeDoc(scope)) }

  function CodePart(code: Bytes, scope: Doc): Bytes { CStr(CodeBytes(code, scope)) }

  function ScopePart(code: Bytes, scope: Doc): Bytes {
    var bytes := CodeBytes(code, scope);
    var p := FindNul(bytes, 0);
    if p == |bytes| then [] else CStr(bytes[p + 1..])
  }

  function CanonicalType(tag: Byte): int {
    if tag == MIN_KEY then -1
    else if tag == MAX_KEY then 127
    else if tag == EOO || tag == UNDEFINED then 0
    else if tag == JST_NULL then 5
    else if tag in {NUMBER_DOUBLE, NUMBER_INT, NUMBER_LONG} then 10
    else if tag in {STRING, SYMBOL} then 15
    else if tag == OBJECT then 20
    else if tag == ARRAY then 25
    else if tag == BIN_DATA then 30
    else if tag == JST_OID then 35
    else if tag == BOOL then 40
    else if tag in {DATE, TIMESTAMP} then 45
    else if tag == REG_EX then 50
    else if tag == DB_REF then 55
    else if tag == CODE then 60
    else 65
  }

  predicate IsNumber(tag: Byte) { tag in {NUMBER_LONG, NUMBER_DOUBLE, NUMBER_INT} }

  function SignedChar(b: Byte): int { if b < 128 then b else b - 256 }

  /** BSONElement::number. */
  function NumberOf(v: Value): Double
    requires v.Fixed? && GoodValue(v) && IsNumber(v.tag)
  {
    if v.tag == NUMBER_DOUBLE then DoubleOf(v.raw)
    else if v.tag == NUMBER_INT then Finite(Signed32(v.raw) as real)
    else ToDouble(Signed64(v.raw))
  }

  function CompareNumbers(l: Value, r: Value): int
    requires l.Fixed? && GoodValue(l) && IsNumber(l.tag)
    requires r.Fixed? && GoodValue(r) && IsNumber(r.tag)
  {
    if l.tag == NUMBER_LONG && r.tag == NUMBER_LONG then Compare(Signed64(l.raw), Signed64(r.raw))
    else if l.tag == NUMBER_INT && r.tag == NUMBER_INT then Compare(Signed32(l.raw), Signed32(r.raw))
    else CompareDoubles(NumberOf(l), NumberOf(r))
  }

  function CompareFixed(l: Value, r: Value): Result
    requires l.Fixed? && GoodValue(l) && r.Fixed? && GoodValue(r)
    requires CanonicalType(l.tag) == CanonicalType(r.tag)
  {
    if l.tag in {UNDEFINED, JST_NULL, MAX_KEY, MIN_KEY} then Is(0)
    else if l.tag == BOOL then Is(SignedChar(l.raw[0]) - SignedChar(r.raw[0]))
    else if l.tag == TIMESTAMP then Is(Compare(Unsigned64(l.raw), Unsigned64(r.raw)))
    else if l.tag == DATE then
      if r.tag != DATE then Threw else Is(Compare(Signed64(l.raw), Signed64(r.raw)))
    else if l.tag == JST_OID then Is(Memcmp(l.raw, r.raw))
    else Is(CompareNumbers(l, r))
  }

  /** compareElementValues, for values of one canonical type. */
  function CompareValues(l: Value, r: Value): Result
    requires GoodValue(l) && GoodValue(r) && CanonicalType(TypeOf(l)) == CanonicalType(TypeOf(r))
    decreases l, 0
  {
    match l
    case Fixed(_, _) => CompareFixed(l, r)
    case Text(_, text) => Is(CompareStrings(text, r.text))
    case Embedded(_, doc) => CompareDocs(doc, r.doc)
    case DBRef(_, _) =>
      var a, b := EncodeValue(l), EncodeValue(r);
      Is(if |a| != |b| then |a| - |b| else Memcmp(a, b))
    case Binary(subtype, data) =>
      Is(if |data| != |r.data| then |data| - |r.data| else Memcmp([subtype] + data, [r.subtype] + r.data))
    case Regex(pattern, options) =>
      Then(Strcmp(pattern, r.pattern), Is(Strcmp(options, r.options)))
    case CodeWScope(code, scope) =>
      Then(Strcmp(CodePart(code, scope), CodePart(r.code, r.scope)),
        Is(Strcmp(ScopePart(code, scope), ScopePart(r.code, r.scope))))
  }

  /** BSONElement::woCompare with field names: canonical type, then name, then value. */
  function WoCompare(name: Bytes, l: Value, other: Bytes, r: Value): Result
    requires GoodValue(l) && GoodValue(r)
    decreases l, 1
  {
    var x := CanonicalType(TypeOf(l)) - CanonicalType(TypeOf(r));
    if x != 0 then Is(x) else Then(Strcmp(name, other), CompareValues(l, r))
  }

  /** BSONObj::woCompare: field by field; a document that ends first is the smaller one. */
  function CompareDocs(l: Doc, r: Doc): Result
    requires GoodDoc(l) && GoodDoc(r)
    decreases l, 0
  {
    if l.Empty? then Is(if r.Empty? then 0 else -1)
    else if r.Empty? then Is(1)
    else
      match WoCompare(l.name, l.value, r.name, r.value)
      case Threw => Threw
      case Is(x) => if x != 0 then Is(x) else CompareDocs(l.rest, r.rest)
  }

  // ----- keys -----

  /** An atom of a key: NaN, then minus infinity, then the reals, then plus infinity. */
  datatype Atom = Atom(rank: int, r: real)

  function Plain(n: int): Atom { Atom(2, n as real) }

  function OfDouble(d: Double): Atom {
    match d
    case NaN => Atom(0, 0.0)
    case NegInf => Atom(1, 0.0)
    case Finite(r) => Atom(2, r)
    case PosInf => Atom(3, 0.0)
  }

  type Key = seq<Atom>

  predicate Less(a: Atom, b: Atom) { a.rank < b.rank || (a.rank == b.rank && a.r < b.r) }

  /** The keys differ at place k and nowhere before it. */
  predicate DifferAt(x: Key, y: Key, k: nat) {
    k < |x| && k < |y| && x[k] != y[k] && forall j :: 0 <= j < k ==> x[j] == y[j]
  }

  /** The lexicographic order of keys. */
  ghost predicate Before(x: Key, y: Key) {
    exists k: nat :: DifferAt(x, y, k) && Less(x[k], y[k])
  }

  /** A comparison result says what the keys say: no difference, or the order at the first difference. */
  ghost predicate Agrees(f: int, x: Key, y: Key) {
    && (f == 0 ==> x == y)
    && (f < 0 ==> Before(x, y))
    && (f > 0 ==> Before(y, x))
  }

  lemma BeforeExtends(x: Key, y: Key, v: Key, w: Key)
    requires Before(x, y)
    ensures Before(x + v, y + w)
  {
    var k: nat :| DifferAt(x, y, k) && Less(x[k], y[k]);
    assert DifferAt(x + v, y + w, k);
  }

  lemma BeforePrefixed(p: Key, v: Key, w: Key)
    requires Before(v, w)
    ensures Before(p + v, p + w)
  {
    var k: nat :| DifferAt(v, w, k) && Less(v[k], w[k]);
    var m := |p| + k;
    assert DifferAt(p + v, p + w, m);
  }

  /** Two criteria one after the other compare the keys one after the other. */
  lemma AgreesThen(f: int, x: Key, y: Key, g: int, v: Key, w: Key)
    requires Agrees(f, x, y) && (f == 0 ==> Agrees(g, v, w))
    ensures Agrees(if f != 0 then f else g, x + v, y + w)
  {
    if f < 0 {
      BeforeExtends(x, y, v, w);
    } else if f > 0 {
      BeforeExtends(y, x, w, v);
    } else if g < 0 {
      BeforePrefixed(x, v, w);
    } else if g > 0 {
      BeforePrefixed(x, w, v);
    }
  }

  lemma AgreesAtom(f: int, a: Atom, b: Atom)
    requires f == 0 ==> a == b
    requires f < 0 ==> Less(a, b)
    requires f > 0 ==> Less(b, a)
    ensures Agrees(f, [a], [b])
  {
    if f < 0 {
      assert DifferAt([a], [b], 0);
    } else if f > 0 {
      assert DifferAt([b], [a], 0);
    }
  }

  /** The order of keys is strict and transitive. */
  lemma BeforeAsymmetric(x: Key, y: Key)
    requires Before(x, y)
    ensures x != y && !Before(y, x)
  {
  }

  lemma BeforeTransitive(x: Key, y: Key, z: Key)
    requires Before(x, y) && Before(y, z)
    ensures Before(x, z)
  {
    var k: nat :| DifferAt(x, y, k) && Less(x[k], y[k]);
    var m: nat :| DifferAt(y, z, m) && Less(y[m], z[m]);
    var n := if k < m then k else m;
    assert DifferAt(x, z, n);
  }

  // ----- the key of an element -----

  function ByteKey(s: Bytes): Key {
    if s == [] then [] else [Plain(s[0])] + ByteKey(s[1..])
  }

  function CStringKey(s: Bytes): Key { ByteKey(s) + [Plain(0)] }

  /** Behind the terminator, a mark below every byte. */
  function StringKey(s: Bytes): Key { ByteKey(s + [0]) + [Plain(-1)] }

  function SizedKey(n: int, s: Bytes): Key { [Plain(n)] + ByteKey(s) }

  function FixedKey(v: Value): Key
    requires v.Fixed? && GoodValue(v)
  {
    if v.tag in {UNDEFINED, JST_NULL, MAX_KEY, MIN_KEY} then []
    else if v.tag == BOOL then [Plain(SignedChar(v.raw[0]))]
    else if v.tag == TIMESTAMP then [Plain(Unsigned64(v.raw))]
    else if v.tag == DATE then [Plain(Signed64(v.raw))]
    else if v.tag == JST_OID then ByteKey(v.raw)
    else [OfDouble(NumberOf(v))]
  }

  function ValueKey(v: Value): Key
    requires GoodValue(v)
    decreases v, 0
  {
    match v
    case Fixed(_, _) => FixedKey(v)
    case Text(_, text) => StringKey(text)
    case Embedded(_, doc) => DocKey(doc)
    case DBRef(_, _) => SizedKey(|EncodeValue(v)|, EncodeValue(v))
    case Binary(subtype, data) => SizedKey(|data|, [subtype] + data)
    case Regex(pattern, options) => CStringKey(pattern) + CStringKey(options)
    case CodeWScope(code, scope) => CStringKey(CodePart(code, scope)) + CStringKey(ScopePart(code, scope))
  }

  function ElementKey(name: Bytes, v: Value): Key
    requires GoodValue(v)
    decreases v, 1
  {
    [Plain(CanonicalType(TypeOf(v)))] + (CStringKey(name) + ValueKey(v))
  }

  /** The end of a document comes before every canonical type. */
  function DocKey(d: Doc): Key
    requires GoodDoc(d)
    decreases d, 0
  {
    match d
    case Empty => [Plain(-2)]
    case Field(name, value, rest) => ElementKey(name, value) + DocKey(rest)
  }

  // ----- where the order holds -----

  /** 64-bit longs that stay apart, and in order, when they are converted to doubles. */
  ghost predicate Separated(longs: iset<int>) {
    forall l, m :: l in longs && m in longs && Is64(l) && Is64(m) && l < m ==> ToDouble(l).r < ToDouble(m).r
  }

  /** What may occur: the longs, and either dates or timestamps. */
  datatype Realm = Realm(longs: iset<int>, dates: bool)

  ghost predicate Orderable(v: Value, realm: Realm)
    requires GoodValue(v)
  {
    match v
    case Fixed(tag, raw) =>
      && (tag == NUMBER_LONG ==> Signed64(raw) in realm.longs)
      && (tag == DATE ==> realm.dates) && (tag == TIMESTAMP ==> !realm.dates)
    case Embedded(_, doc) => OrderableDoc(doc, realm)
    case _ => true
  }

  ghost predicate OrderableDoc(d: Doc, realm: Realm)
    requires GoodDoc(d)
  {
    match d
    case Empty => true
    case Field(_, value, rest) => Orderable(value, realm) && OrderableDoc(rest, realm)
  }

  // ----- comparison is the order of keys -----

  lemma {:induction false} MemcmpAgrees(a: Bytes, b: Bytes)
    requires |a| == |b|
    ensures Agrees(Memcmp(a, b), ByteKey(a), ByteKey(b))
  {
    hide Agrees;
    if a == [] {
      AgreesEmpty();
    } else {
      var f := a[0] as int - b[0] as int;
      AgreesAtom(f, Plain(a[0]), Plain(b[0]));
      if f == 0 {
        MemcmpAgrees(a[1..], b[1..]);
      }
      AgreesThen(f, [Plain(a[0])], [Plain(b[0])], Memcmp(a[1..], b[1..]), ByteKey(a[1..]), ByteKey(b[1..]));
    }
  }

  lemma AgreesEmpty()
    ensures Agrees(0, [], [])
  {
  }

  lemma {:induction false} StrcmpAgrees(a: Bytes, b: Bytes)
    requires NulFree(a) && NulFree(b)
    ensures Agrees(Strcmp(a, b), CStringKey(a), CStringKey(b))
    decreases |a|
  {
    hide Agrees;
    CStringKeyUnfold(a);
    CStringKeyUnfold(b);
    var x, y := CStringHead(a), CStringHead(b);
    var f := if a == [] && b == [] then 0 else if a == [] then -1 else if b == [] then 1 else a[0] as int - b[0] as int;
    AgreesAtom(f, x, y);
    if a != [] && b != [] {
      if f == 0 {
        StrcmpAgrees(a[1..], b[1..]);
      }
      AgreesThen(f, [x], [y], Strcmp(a[1..], b[1..]), CStringKey(a[1..]), CStringKey(b[1..]));
    } else {
      var v := if a == [] then [] else CStringKey(a[1..]);
      var w := if b == [] then [] else CStringKey(b[1..]);
      if f == 0 {
        AgreesEmpty();
      }
      AgreesThen(f, [x], [y], 0, v, w);
      assert [x] + v == CStringKey(a) && [y] + w == CStringKey(b);
    }
  }

  function CStringHead(s: Bytes): Atom { if s == [] then Plain(0) else Plain(s[0]) }

  lemma CStringKeyUnfold(s: Bytes)
    ensures CStringKey(s) == [CStringHead(s)] + (if s == [] then [] else CStringKey(s[1..]))
  {
    if s == [] {
      assert CStringKey(s) == [Plain(0)];
    } else {
      assert CStringKey(s) == [Plain(s[0])] + ByteKey(s[1..]) + [Plain(0)];
    }
  }

  lemma {:induction false} ByteKeyConcat(a: Bytes, b: Bytes)
    ensures ByteKey(a + b) == ByteKey(a) + ByteKey(b)
  {
    if a == [] {
      assert a + b == b;
    } else {
      assert (a + b)[1..] == a[1..] + b;
      ByteKeyConcat(a[1..], b);
    }
  }

  lemma StringsAgree(a: Bytes, b: Bytes)
    ensures Agrees(CompareStrings(a, b), StringKey(a), StringKey(b))
  {
    hide Agrees, Memcmp, ByteKey;
    var l, r := a + [0], b + [0];
    var n := if |l| < |r| then |l| else |r|;
    MemcmpAgrees(l[..n], r[..n]);
    TailsAgree(l[n..], r[n..]);
    AgreesThen(Memcmp(l[..n], r[..n]), ByteKey(l[..n]), ByteKey(r[..n]), |l| - |r|,
      ByteKey(l[n..]) + [Plain(-1)], ByteKey(r[n..]) + [Plain(-1)]);
    assert l == l[..n] + l[n..] && r == r[..n] + r[n..];
    ByteKeyConcat(l[..n], l[n..]);
    ByteKeyConcat(r[..n], r[n..]);
    assert ByteKey(l[..n]) + (ByteKey(l[n..]) + [Plain(-1)]) == StringKey(a);
    assert ByteKey(r[..n]) + (ByteKey(r[n..]) + [Plain(-1)]) == StringKey(b);
  }

  /** Behind a common part, the string that ends first is the smaller one. */
  lemma TailsAgree(v: Bytes, w: Bytes)
    requires v == [] || w == []
    ensures Agrees(|v| - |w|, ByteKey(v) + [Plain(-1)], ByteKey(w) + [Plain(-1)])
  {
    var x, y := ByteKey(v) + [Plain(-1)], ByteKey(w) + [Plain(-1)];
    if v != [] {
      assert y[0] == Plain(-1) && x[0] == Plain(v[0]);
      assert DifferAt(y, x, 0);
    } else if w != [] {
      assert x[0] == Plain(-1) && y[0] == Plain(w[0]);
      assert DifferAt(x, y, 0);
    }
  }

  lemma SizedAgrees(n: int, a: Bytes, m: int, b: Bytes)
    requires n - m == |a| - |b|
    ensures Agrees(if n != m then n - m else Memcmp(a, b), SizedKey(n, a), SizedKey(m, b))
  {
    hide Agrees, Memcmp, ByteKey;
    AgreesAtom(n - m, Plain(n), Plain(m));
    if n == m {
      MemcmpAgrees(a, b);
      AgreesThen(0, [Plain(n)], [Plain(m)], Memcmp(a, b), ByteKey(a), ByteKey(b));
    } else {
      AgreesThen(n - m, [Plain(n)], [Plain(m)], 0, ByteKey(a), ByteKey(b));
    }
  }

  lemma CStringPairAgrees(a: Bytes, b: Bytes, c: Bytes, d: Bytes)
    requires NulFree(a) && NulFree(b) && NulFree(c) && NulFree(d)
    ensures Agrees(if Strcmp(a, b) != 0 then Strcmp(a, b) else Strcmp(c, d),
              CStringKey(a) + CStringKey(c), CStringKey(b) + CStringKey(d))
  {
    hide Agrees, Strcmp, CStringKey;
    StrcmpAgrees(a, b);
    StrcmpAgrees(c, d);
    AgreesThen(Strcmp(a, b), CStringKey(a), CStringKey(b), Strcmp(c, d), CStringKey(c), CStringKey(d));
  }

  lemma CStrNulFree(bytes: Bytes)
    ensures NulFree(CStr(bytes))
  {
  }

  lemma PartsNulFree(code: Bytes, scope: Doc)
    ensures NulFree(CodePart(code, scope)) && NulFree(ScopePart(code, scope))
  {
    hide CStr, EncodeDoc;
    var bytes := CodeBytes(code, scope);
    CStrNulFree(bytes);
    var p := FindNul(bytes, 0);
    if p < |bytes| {
      CStrNulFree(bytes[p + 1..]);
    }
  }

  lemma NumbersAgree(l: Value, r: Value, longs: iset<int>)
    requires Separated(longs)
    requires l.Fixed? && GoodValue(l) && IsNumber(l.tag) && (l.tag == NUMBER_LONG ==> Signed64(l.raw) in longs)
    requires r.Fixed? && GoodValue(r) && IsNumber(r.tag) && (r.tag == NUMBER_LONG ==> Signed64(r.raw) in longs)
    ensures Agrees(CompareNumbers(l, r), [OfDouble(NumberOf(l))], [OfDouble(NumberOf(r))])
  {
    hide Signed64, Signed32, DoubleOf, ToDouble, Agrees;
    if l.tag == NUMBER_LONG && r.tag == NUMBER_LONG {
      Signed64Range(l.raw);
      Signed64Range(r.raw);
    }
    AgreesAtom(CompareNumbers(l, r), OfDouble(NumberOf(l)), OfDouble(NumberOf(r)));
  }

  /** What a pair of fixed-size values of one canonical type compares by. */
  lemma FixedAgrees(l: Value, r: Value, realm: Realm)
    requires Separated(realm.longs)
    requires l.Fixed? && GoodValue(l) && r.Fixed? && GoodValue(r) && Orderable(l, realm) && Orderable(r, realm)
    requires CanonicalType(l.tag) == CanonicalType(r.tag)
    ensures CompareFixed(l, r).Is? && Agrees(CompareFixed(l, r).x, FixedKey(l), FixedKey(r))
  {
    hide Agrees, Signed64, Unsigned64, Memcmp, NumberOf, CompareNumbers, ByteKey;
    if l.tag in {UNDEFINED, JST_NULL, MAX_KEY, MIN_KEY} {
      AgreesEmpty();
    } else if l.tag == BOOL {
      AgreesAtom(SignedChar(l.raw[0]) - SignedChar(r.raw[0]), Plain(SignedChar(l.raw[0])), Plain(SignedChar(r.raw[0])));
    } else if l.tag == TIMESTAMP {
      AgreesAtom(Compare(Unsigned64(l.raw), Unsigned64(r.raw)), Plain(Unsigned64(l.raw)), Plain(Unsigned64(r.raw)));
    } else if l.tag == DATE {
      AgreesAtom(Compare(Signed64(l.raw), Signed64(r.raw)), Plain(Signed64(l.raw)), Plain(Signed64(r.raw)));
    } else if l.tag == JST_OID {
      MemcmpAgrees(l.raw, r.raw);
    } else {
      NumbersAgree(l, r, realm.longs);
    }
  }

  /** Values of one canonical type have one shape. */
  lemma SameShape(l: Value, r: Value)
    requires GoodValue(l) && GoodValue(r) && CanonicalType(TypeOf(l)) == CanonicalType(TypeOf(r))
    ensures l.Fixed? == r.Fixed? && l.Text? == r.Text? && l.Embedded? == r.Embedded? && l.DBRef? == r.DBRef?
    ensures l.Binary? == r.Binary? && l.Regex? == r.Regex? && l.CodeWScope? == r.CodeWScope?
  {
  }

  lemma {:induction false} ValuesAgree(l: Value, r: Value, realm: Realm)
    requires Separated(realm.longs)
    requires GoodValue(l) && GoodValue(r) && Orderable(l, realm) && Orderable(r, realm)
    requires CanonicalType(TypeOf(l)) == CanonicalType(TypeOf(r))
    ensures CompareValues(l, r).Is? && Agrees(CompareValues(l, r).x, ValueKey(l), ValueKey(r))
    decreases l, 0
  {
    hide Agrees, Memcmp, Strcmp, CompareStrings, CompareFixed, FixedKey, StringKey, SizedKey, CStringKey,
      CodePart, ScopePart, EncodeValue;
    SameShape(l, r);
    match l
    case Fixed(_, _) => FixedAgrees(l, r, realm);
    case Text(_, text) => StringsAgree(text, r.text);
    case Embedded(_, doc) => DocsAgree(doc, r.doc, realm);
    case DBRef(_, _) => SizedAgrees(|EncodeValue(l)|, EncodeValue(l), |EncodeValue(r)|, EncodeValue(r));
    case Binary(subtype, data) => SizedAgrees(|data|, [subtype] + data, |r.data|, [r.subtype] + r.data);
    case Regex(pattern, options) => CStringPairAgrees(pattern, r.pattern, options, r.options);
    case CodeWScope(code, scope) =>
      PartsNulFree(code, scope);
      PartsNulFree(r.code, r.scope);
      CStringPairAgrees(CodePart(code, scope), CodePart(r.code, r.scope),
        ScopePart(code, scope), ScopePart(r.code, r.scope));
  }

  /** Comparing two elements is comparing their keys. */
  lemma {:induction false} WoCompareAgrees(name: Bytes, l: Value, other: Bytes, r: Value, realm: Realm)
    requires Separated(realm.longs)
    requires NulFree(name) && NulFree(other)
    requires GoodValue(l) && GoodValue(r) && Orderable(l, realm) && Orderable(r, realm)
    ensures WoCompare(name, l, other, r).Is?
    ensures Agrees(WoCompare(name, l, other, r).x, ElementKey(name, l), ElementKey(other, r))
    decreases l, 1
  {
    hide Agrees, CompareValues, ValueKey, Strcmp, CStringKey, CanonicalType;
    var a, b := CanonicalType(TypeOf(l)), CanonicalType(TypeOf(r));
    AgreesAtom(a - b, Plain(a), Plain(b));
    var v, w := CStringKey(name) + ValueKey(l), CStringKey(other) + ValueKey(r);
    var g := 0;
    if a == b {
      StrcmpAgrees(name, other);
      ValuesAgree(l, r, realm);
      var f, x := Strcmp(name, other), CompareValues(l, r).x;
      AgreesThen(f, CStringKey(name), CStringKey(other), x, ValueKey(l), ValueKey(r));
      g := if f != 0 then f else x;
    }
    AgreesThen(a - b, [Plain(a)], [Plain(b)], g, v, w);
  }

  lemma ElementKeyHead(name: Bytes, v: Value, rest: Key)
    requires GoodValue(v)
    ensures |ElementKey(name, v) + rest| > 0 && Less(Plain(-2), (ElementKey(name, v) + rest)[0])
  {
    hide CStringKey, ValueKey;
    assert (ElementKey(name, v) + rest)[0] == Plain(CanonicalType(TypeOf(v)));
    CanonicalBound(TypeOf(v));
  }

  lemma CanonicalBound(tag: Byte)
    ensures CanonicalType(tag) >= -1
  {
  }

  /** Comparing two documents is comparing their keys. */
  lemma {:induction false} DocsAgree(l: Doc, r: Doc, realm: Realm)
    requires Separated(realm.longs)
    requires GoodDoc(l) && GoodDoc(r) && OrderableDoc(l, realm) && OrderableDoc(r, realm)
    ensures CompareDocs(l, r).Is? && Agrees(CompareDocs(l, r).x, DocKey(l), DocKey(r))
    decreases l, 2
  {
    hide WoCompare, ElementKey, GoodValue, Orderable;
    if l.Field? && r.Field? {
      WoCompareAgrees(l.name, l.value, r.name, r.value, realm);
      var f := WoCompare(l.name, l.value, r.name, r.value).x;
      var g := 0;
      if f == 0 {
        DocsAgree(l.rest, r.rest, realm);
        g := CompareDocs(l.rest, r.rest).x;
      }
      AgreesThen(f, ElementKey(l.name, l.value), ElementKey(r.name, r.value), g, DocKey(l.rest), DocKey(r.rest));
    } else if l.Field? {
      ElementKeyHead(l.name, l.value, DocKey(l.rest));
      assert DifferAt(DocKey(r), DocKey(l), 0);
    } else if r.Field? {
      ElementKeyHead(r.name, r.value, DocKey(r.rest));
      assert DifferAt(DocKey(l), DocKey(r), 0);
    }
  }

  // ----- a total preorder -----

  function Sign(x: int): int { if x < 0 then -1 else if x == 0 then 0 else 1 }

  lemma AgreesAntisymmetric(f: int, g: int, x: Key, y: Key)
    requires Agrees(f, x, y) && Agrees(g, y, x)
    ensures Sign(f) == -Sign(g)
  {
    if f < 0 {
      BeforeAsymmetric(x, y);
    } else if f > 0 {
      BeforeAsymmetric(y, x);
    } else if g < 0 {
      BeforeAsymmetric(y, x);
    } else if g > 0 {
      BeforeAsymmetric(x, y);
    }
  }

  lemma AgreesTransitive(f: int, g: int, h: int, x: Key, y: Key, z: Key)
    requires Agrees(f, x, y) && Agrees(g, y, z) && Agrees(h, x, z)
    requires f <= 0 && g <= 0
    ensures h <= 0 && (h == 0 <==> f == 0 && g == 0)
  {
    if f < 0 && g < 0 {
      BeforeTransitive(x, y, z);
    }
    if f < 0 || g < 0 {
      assert Before(x, z);
      BeforeAsymmetric(x, z);
    } else if h != 0 {
      if h < 0 {
        BeforeAsymmetric(x, z);
      } else {
        BeforeAsymmetric(z, x);
      }
    }
  }

  /** woCompare with field names is a total preorder on elements, nested documents included. */
  lemma WoCompareIsPreorder(a: Bytes, u: Value, b: Bytes, v: Value, c: Bytes, w: Value, realm: Realm)
    requires Separated(realm.longs)
    requires NulFree(a) && NulFree(b) && NulFree(c) && GoodValue(u) && GoodValue(v) && GoodValue(w)
    requires Orderable(u, realm) && Orderable(v, realm) && Orderable(w, realm)
    ensures WoCompare(a, u, b, v).Is? && WoCompare(b, v, a, u).Is? && WoCompare(b, v, c, w).Is? && WoCompare(a, u, c, w).Is?
    ensures Sign(WoCompare(a, u, b, v).x) == -Sign(WoCompare(b, v, a, u).x)
    ensures WoCompare(a, u, b, v).x <= 0 && WoCompare(b, v, c, w).x <= 0 ==>
      && WoCompare(a, u, c, w).x <= 0
      && (WoCompare(a, u, c, w).x == 0 <==> WoCompare(a, u, b, v).x == 0 && WoCompare(b, v, c, w).x == 0)
  {
    hide WoCompare, ElementKey, Agrees, Orderable, GoodValue;
    WoCompareAgrees(a, u, b, v, realm);
    WoCompareAgrees(b, v, a, u, realm);
    WoCompareAgrees(b, v, c, w, realm);
    WoCompareAgrees(a, u, c, w, realm);
    var x, y, z := ElementKey(a, u), ElementKey(b, v), ElementKey(c, w);
    AgreesAntisymmetric(WoCompare(a, u, b, v).x, WoCompare(b, v, a, u).x, x, y);
    if WoCompare(a, u, b, v).x <= 0 && WoCompare(b, v, c, w).x <= 0 {
      AgreesTransitive(WoCompare(a, u, b, v).x, WoCompare(b, v, c, w).x, WoCompare(a, u, c, w).x, x, y, z);
    }
  }

  // ----- exactly where it holds -----

  datatype Element = Element(name: Bytes, value: Value)

  ghost predicate InRealm(e: Element, realm: Realm) {
    NulFree(e.name) && GoodValue(e.value) && Orderable(e.value, realm)
  }

  function CompareElements(e: Element, f: Element): Result
    requires GoodValue(e.value) && GoodValue(f.value)
  {
    WoCompare(e.name, e.value, f.name, f.value)
  }

  ghost predicate Antisymmetric(realm: Realm) {
    forall e, f :: InRealm(e, realm) && InRealm(f, realm) ==>
      && CompareElements(e, f).Is? && CompareElements(f, e).Is?
      && Sign(CompareElements(e, f).x) == -Sign(CompareElements(f, e).x)
  }

  ghost predicate Transitive(realm: Realm) {
    forall e, f, g :: InRealm(e, realm) && InRealm(f, realm) && InRealm(g, realm) && AtMost(e, f) && AtMost(f, g) ==>
      AtMost(e, g)
  }

  predicate AtMost(e: Element, f: Element)
    requires GoodValue(e.value) && GoodValue(f.value)
  {
    CompareElements(e, f).Is? && CompareElements(e, f).x <= 0
  }

  /**
   woCompare is a total preorder on everything a realm admits if and only if
   the conversion to double keeps the realm's longs apart.
   */
  lemma PreorderIffSeparated(realm: Realm)
    ensures Antisymmetric(realm) && Transitive(realm) <==> Separated(realm.longs)
  {
    hide WoCompare, Orderable, GoodValue, Separated;
    if Separated(realm.longs) {
      forall e, f | InRealm(e, realm) && InRealm(f, realm)
        ensures CompareElements(e, f).Is? && CompareElements(f, e).Is?
        ensures Sign(CompareElements(e, f).x) == -Sign(CompareElements(f, e).x)
      {
        WoCompareIsPreorder(e.name, e.value, f.name, f.value, f.name, f.value, realm);
      }
      forall e, f, g | InRealm(e, realm) && InRealm(f, realm) && InRealm(g, realm) && AtMost(e, f) && AtMost(f, g)
        ensures AtMost(e, g)
      {
        WoCompareIsPreorder(e.name, e.value, f.name, f.value, g.name, g.value, realm);
      }
    } else {
      NotSeparated(realm);
    }
  }

  lemma NotSeparated(realm: Realm)
    requires !Separated(realm.longs)
    ensures !(Antisymmetric(realm) && Transitive(realm))
  {
    hide ToDouble, CompareElements, InRealm;
    var l, m :| l in realm.longs && m in realm.longs && Is64(l) && Is64(m) && l < m && ToDouble(l).r >= ToDouble(m).r;
    var e, f, d := Misordered(l, m, realm);
  }

  /** Two longs out of order around the double that the smaller one converts to. */
  lemma Misordered(l: int, m: int, realm: Realm) returns (e: Element, f: Element, d: Element)
    requires l in realm.longs && m in realm.longs && Is64(l) && Is64(m) && l < m && ToDouble(l).r >= ToDouble(m).r
    ensures InRealm(e, realm) && InRealm(f, realm) && InRealm(d, realm)
    ensures CompareElements(f, e) == Is(1)
    ensures CompareElements(d, e) == Is(0)
    ensures CompareElements(f, d).Is? && CompareElements(f, d).x <= 0
  {
    hide Signed64, DoubleOf, ToDouble;
    var small := LongBytes(l);
    var large := LongBytes(m);
    var double := ConvertedBytes(l);
    e := Element([], Fixed(NUMBER_LONG, small));
    f := Element([], Fixed(NUMBER_LONG, large));
    d := Element([], Fixed(NUMBER_DOUBLE, double));
    NumberElements(f.value, e.value);
    NumberElements(d.value, e.value);
    NumberElements(f.value, d.value);
  }

  lemma NumberElements(l: Value, r: Value)
    requires l.Fixed? && GoodValue(l) && IsNumber(l.tag) && r.Fixed? && GoodValue(r) && IsNumber(r.tag)
    ensures CompareElements(Element([], l), Element([], r)) == Is(CompareNumbers(l, r))
  {
    hide CompareNumbers;
    var none: Bytes := [];
    StrcmpZero(none, none);
    assert CompareFixed(l, r) == Is(CompareNumbers(l, r));
    assert CompareValues(l, r) == CompareFixed(l, r);
  }

  predicate Small(n: int) { -TWO53 <= n <= TWO53 }

  /** Longs up to 2^53 in magnitude, which doubles represent exactly, stay apart. */
  lemma SmallLongsSeparated()
    ensures Separated(iset n: int | Small(n))
  {
    hide RoundHalfEven, Spacing;
  }

  /** Beyond, they do not: 2^53 and its successor equal the same double, and not each other. */
  lemma LargeLongsNotTransitive()
    ensures var l := Fixed(NUMBER_LONG, [0, 0, 0, 0, 0, 0, 0x20, 0]);
      var m := Fixed(NUMBER_LONG, [1, 0, 0, 0, 0, 0, 0x20, 0]);
      var d := Fixed(NUMBER_DOUBLE, [0, 0, 0, 0, 0, 0, 0x40, 0x43]);
      && GoodValue(l) && GoodValue(m) && GoodValue(d)
      && CompareNumbers(l, d) == 0 && CompareNumbers(d, m) == 0 && CompareNumbers(l, m) == -1
  {
    hide Signed64, DoubleOf, ToDouble;
    var l: Bytes := [0, 0, 0, 0, 0, 0, 0x20, 0];
    var m: Bytes := [1, 0, 0, 0, 0, 0, 0x20, 0];
    var d: Bytes := [0, 0, 0, 0, 0, 0, 0x40, 0x43];
    AboutTwo53(l, 0);
    AboutTwo53(m, 1);
    Two53Bytes(d);
    BeyondExact();
  }

  lemma LargeLongsNotSeparated(longs: iset<int>)
    requires TWO53 in longs && TWO53 + 1 in longs
    ensures !Separated(longs)
  {
    hide ToDouble;
    BeyondExact();
  }

  lemma BeyondExact()
    ensures ToDouble(TWO53) == ToDouble(TWO53 + 1) == Finite(TWO53 as real)
  {
    assert Spacing(TWO53 + 1, 1) == 2 by {
      assert Spacing(TWO53 + 1, 1) == Spacing(TWO53 + 1, 2);
    }
    assert RoundHalfEven(TWO53 + 1, 2) == TWO53 / 2;
  }

  lemma LittleEndianOf(raw: Bytes)
    requires |raw| == 8 && forall i :: 1 <= i < 6 ==> raw[i] == 0
    ensures LittleEndian(raw) == raw[0] as int + 0x1_0000_0000_0000 * raw[6] as int + 0x100_0000_0000_0000 * raw[7] as int
  {
    hide LittleEndian;
    Digits(raw, 7);
    Digits(raw, 6);
    Digits(raw, 5);
    Digits(raw, 4);
    Digits(raw, 3);
    Digits(raw, 2);
    Digits(raw, 1);
    Digits(raw, 0);
    assert raw[0..] == raw;
    assert LittleEndian(raw[8..]) == 0 by { Nothing(raw[8..]); }
  }

  lemma Nothing(raw: Bytes)
    requires raw == []
    ensures LittleEndian(raw) == 0
  {
  }

  lemma Digits(raw: Bytes, i: nat)
    requires i < |raw|
    ensures LittleEndian(raw[i..]) == raw[i] + 256 * LittleEndian(raw[i + 1..])
  {
    assert raw[i..][1..] == raw[i + 1..];
  }

  lemma AboutTwo53(raw: Bytes, low: Byte)
    requires raw == [low, 0, 0, 0, 0, 0, 0x20, 0]
    ensures Signed64(raw) == TWO53 + low
  {
    hide LittleEndian;
    LittleEndianOf(raw);
  }

  lemma Two53Bytes(raw: Bytes)
    requires raw == [0, 0, 0, 0, 0, 0, 0x40, 0x43]
    ensures DoubleOf(raw) == Finite(TWO53 as real)
  {
    hide LittleEndian;
    LittleEndianOf(raw);
    var bits := LittleEndian(raw);
    assert bits == 0x4340_0000_0000_0000;
    assert bits % 0x10_0000_0000_0000 == 0 && bits / 0x10_0000_0000_0000 % 2048 == 1076;
    assert Pow2(1) == 2.0;
  }

  // ----- exactly when it throws -----

  /** A Date meets a Timestamp, alone or in nested documents with nothing different in front of it. */
  predicate ValuesClash(l: Value, r: Value)
    requires GoodValue(l) && GoodValue(r)
    decreases l, 0
  {
    || (l.Fixed? && r.Fixed? && l.tag == DATE && r.tag == TIMESTAMP)
    || (l.Embedded? && r.Embedded? && l.tag == r.tag && DocsClash(l.doc, r.doc))
  }

  predicate DocsClash(l: Doc, r: Doc)
    requires GoodDoc(l) && GoodDoc(r)
    decreases l, 0
  {
    && l.Field? && r.Field?
    && (|| (l.name == r.name && ValuesClash(l.value, r.value))
        || (WoCompare(l.name, l.value, r.name, r.value) == Is(0) && DocsClash(l.rest, r.rest)))
  }

  /** woCompare throws exactly when a Date on the left meets a Timestamp on the right, under the same names. */
  lemma {:induction false} ThrowsIffDateMeetsTimestamp(name: Bytes, l: Value, other: Bytes, r: Value)
    requires GoodValue(l) && GoodValue(r)
    ensures WoCompare(name, l, other, r).Threw? <==> name == other && ValuesClash(l, r)
    decreases l, 1
  {
    hide Agrees, CompareNumbers, Memcmp, Signed64, Unsigned64, Strcmp, CompareStrings, EncodeValue, CodePart, ScopePart, CompareDocs;
    StrcmpZero(name, other);
    if CanonicalType(TypeOf(l)) == CanonicalType(TypeOf(r)) {
      SameShape(l, r);
      if l.Embedded? {
        DocsThrow(l.doc, r.doc);
      }
    }
  }

  lemma {:induction false} DocsThrow(l: Doc, r: Doc)
    requires GoodDoc(l) && GoodDoc(r)
    ensures CompareDocs(l, r).Threw? <==> DocsClash(l, r)
    decreases l, 0
  {
    hide WoCompare, ValuesClash, GoodValue;
    if l.Field? && r.Field? {
      ThrowsIffDateMeetsTimestamp(l.name, l.value, r.name, r.value);
      DocsThrow(l.rest, r.rest);
    }
  }

  lemma {:induction false} StrcmpZero(a: Bytes, b: Bytes)
    ensures Strcmp(a, b) == 0 <==> a == b
    decreases |a|
  {
    if a != [] && b != [] {
      StrcmpZero(a[1..], b[1..]);
      assert a == [a[0]] + a[1..] && b == [b[0]] + b[1..];
    }
  }
}
