/**
BSONArrayBuilder: a document whose field names are the positions "0", "1", ...,
with appends at a named position that fill the gap with nulls.
*/
module ArrayBuilder {
  import opened Bson
  import Reader
  import opened Builder
  import ParseNumber

  /** The C type long. */
  const LONG: ParseNumber.NumberType :=
    ParseNumber.NumberType(-0x8000_0000_0000_0000, 0x7fff_ffff_ffff_ffff)

  const MAX_ELEMS: int := 1500000

  const NULL: Value := Fixed(JST_NULL, [])

  function Ascii(s: string): Bytes {
    seq(|s|, i requires 0 <= i < |s| => s[i] as int % 256)
  }

  /** The field name of a position: numStr. */
  function Position(k: nat): Bytes { Ascii(ParseNumber.Decimal(k)) }

  /** The values as fields named k, k + 1, ... */
  function ArrayDoc(values: seq<Value>, k: nat): Doc
    decreases |values|
  {
    if values == [] then Empty else Field(Position(k), values[0], ArrayDoc(values[1..], k + 1))
  }

  function Nulls(n: int): seq<Value> {
    if n <= 0 then [] else Nulls(n - 1) + [NULL]
  }

  lemma {:induction false} ArrayDocSnoc(values: seq<Value>, v: Value, k: nat)
    ensures EncodeList(ArrayDoc(values + [v], k)) ==
            EncodeList(ArrayDoc(values, k)) + EncodeElement(Position(k + |values|), v)
    decreases |values|
  {
    hide EncodeElement, Position;
    var more := values + [v];
    if values == [] {
      assert more[1..] == [];
    } else {
      assert more[1..] == values[1..] + [v];
      ArrayDocSnoc(values[1..], v, k + 1);
    }
  }

  /** The names are the positions in order, and the values are the values. */
  lemma {:induction false} ArrayDocFields(values: seq<Value>, k: nat)
    ensures Reader.FieldValues(ArrayDoc(values, k)) == values
    ensures |Reader.FieldNames(ArrayDoc(values, k))| == |values|
    ensures forall j :: 0 <= j < |values| ==> Reader.FieldNames(ArrayDoc(values, k))[j] == Position(k + j)
    decreases |values|
  {
    hide Position;
    if values != [] {
      ArrayDocFields(values[1..], k + 1);
      forall j | 0 <= j < |values| ensures Reader.FieldNames(ArrayDoc(values, k))[j] == Position(k + j) {
        if j > 0 {
          assert Reader.FieldNames(ArrayDoc(values, k))[j] == Reader.FieldNames(ArrayDoc(values[1..], k + 1))[j - 1];
        }
      }
    }
  }

  lemma AsciiInjective(s: string, t: string)
    requires forall i :: 0 <= i < |s| ==> s[i] as int < 256
    requires forall i :: 0 <= i < |t| ==> t[i] as int < 256
    requires Ascii(s) == Ascii(t)
    ensures s == t
  {
    assert |s| == |Ascii(s)| == |t|;
    forall i | 0 <= i < |s| ensures s[i] == t[i] {
      assert Ascii(s)[i] == Ascii(t)[i];
    }
  }

  lemma DecimalAscii(n: nat)
    ensures forall i :: 0 <= i < |ParseNumber.Decimal(n)| ==> ParseNumber.Decimal(n)[i] as int < 256
  {
    var s := ParseNumber.Decimal(n);
    forall i | 0 <= i < |s| ensures s[i] as int < 256 {
      ParseNumber.DigitIsPlace(s[i]);
      assert ParseNumber.DigitValue(s[i]) < 10;
    }
  }

  /** The number that bytes stand for as decimal digits, 48 being the zero. */
  function DecimalBytes(bytes: Bytes): int {
    if bytes == [] then 0 else 10 * DecimalBytes(bytes[..|bytes| - 1]) + (bytes[|bytes| - 1] as int - 48)
  }

  lemma PositionUnfolds(k: nat)
    ensures Position(k) == (if k < 10 then [] else Position(k / 10)) + [48 + k % 10]
  {
    hide ParseNumber.DigitChar, ParseNumber.Decimal, Ascii;
    DigitCode(k % 10);
    ParseNumber.DecimalUnfolds(k);
    AsciiSnoc(if k < 10 then "" else ParseNumber.Decimal(k / 10), ParseNumber.DigitChar(k % 10));
  }

  lemma AsciiSnoc(s: string, c: char)
    requires c as int < 256
    ensures Ascii(s + [c]) == Ascii(s) + [c as int] && Ascii("") == []
  {
  }

  /** The name of a position is its decimal numeral in ASCII, without leading zeros. */
  lemma {:induction false} PositionIs(k: nat)
    ensures DecimalBytes(Position(k)) == k
    ensures forall i :: 0 <= i < |Position(k)| ==> 48 <= Position(k)[i] <= 57
    ensures Position(k) != [] && (Position(k)[0] == 48 ==> k == 0 && |Position(k)| == 1)
  {
    hide Position;
    PositionUnfolds(k);
    var front: Bytes := if k < 10 then [] else Position(k / 10);
    if k >= 10 {
      PositionIs(k / 10);
    }
    assert Position(k)[..|front|] == front;
  }

  lemma DigitCode(d: nat)
    requires d < 10
    ensures ParseNumber.DigitChar(d) as int == 48 + d
  {
    ParseNumber.NumeralsCodes(d);
  }

  /** Different positions have different names, so an array never holds one name twice. */
  lemma PositionsDiffer(j: nat, k: nat)
    requires Position(j) == Position(k)
    ensures j == k
  {
    DecimalAscii(j);
    DecimalAscii(k);
    AsciiInjective(ParseNumber.Decimal(j), ParseNumber.Decimal(k));
    ParseNumber.DecimalValue(j);
    ParseNumber.DecimalValue(k);
  }

  /** No error, 13048 (name is no number), 15891 (fill beyond the limit). */
  datatype Outcome = Done | NotANumber | TooManyElements

  class BSONArrayBuilder {
    const b: BSONObjBuilder
    var i: nat
    ghost var values: seq<Value>

    ghost predicate Valid()
      reads this, b, b.b
    {
      b.Open() && i == |values| && b.List() == EncodeList(ArrayDoc(values, 0))
    }

    constructor ()
      ensures Valid() && values == [] && fresh(b) && fresh(b.b)
    {
      b := new BSONObjBuilder();
      i := 0;
      values := [];
    }

    method Num() returns (name: Bytes)
      modifies this`i
      ensures name == Position(old(i)) && i == old(i) + 1
    {
      name := Position(i);
      i := i + 1;
    }

    method Append(v: Value)
      requires Valid()
      modifies this, b.b
      ensures Valid() && values == old(values) + [v]
    {
      hide EncodeElement, Position;
      var name := Num();
      BuildField(b, name, v);
      ArrayDocSnoc(values, v, 0);
      values := values + [v];
    }

    method AppendNull()
      requires Valid()
      modifies this, b.b
      ensures Valid() && values == old(values) + [NULL]
    {
      Append(NULL);
    }

    /** fill(int): nulls up to a position; a position already passed is ignored. */
    method Fill(upTo: int) returns (outcome: Outcome)
      requires Valid()
      modifies this, b.b
      ensures Valid()
      ensures upTo > 1_500_000 ==> outcome == TooManyElements && values == old(values)
      ensures upTo <= 1_500_000 ==> outcome == Done && values == old(values) + Nulls(upTo - old(i))
    {
      if upTo > MAX_ELEMS {
        return TooManyElements;
      }
      ghost var start := i;
      while i < upTo
        invariant Valid() && start <= i
        invariant values == old(values) + Nulls(i - start)
        invariant i <= upTo || i == start
      {
        AppendNull();
      }
      return Done;
    }

    /** append(name, x): the parsed name, narrowed to int, is the position to fill up to. */
    method AppendNamed(name: string, v: Value) returns (outcome: Outcome)
      requires Valid()
      modifies this, b.b
      ensures Valid()
      ensures outcome != Done ==> values == old(values)
      ensures outcome == NotANumber <==> forall k :: !ParseNumber.Denotes(LONG, name, 10, k)
      ensures forall k :: ParseNumber.Denotes(LONG, name, 10, k) ==>
        if Wrap32(k) > MAX_ELEMS then outcome == TooManyElements
        else outcome == Done && values == old(values) + Nulls(Wrap32(k) - old(i)) + [v]
    {
      hide ParseNumber.Denotes, Wrap32;
      var n := ParseNumber.ParseNumberFromStringWithBase(LONG, name, 10);
      if !n.Ok? {
        return NotANumber;
      }
      outcome := Fill(Wrap32(n.value));
      if outcome != Done {
        return;
      }
      Append(v);
    }

    /** By decimal name k: the value lands at max(i, k), with nulls in between. */
    method AppendAt(k: nat, v: Value)
      requires Valid() && k <= MAX_ELEMS
      modifies this, b.b
      ensures Valid()
      ensures values == old(values) + Nulls(k - old(i)) + [v]
      ensures |values| == (if k > old(i) then k else old(i)) + 1
    {
      hide ParseNumber.Denotes, ParseNumber.Decimal, Wrap32;
      ParseNumber.DecimalDenotes(LONG, k);
      NullsLength(k - i);
      var _ := AppendNamed(ParseNumber.Decimal(k), v);
    }

    /** The finished array. */
    method Arr() returns (arr: Bytes)
      requires Valid()
      modifies this, b, b.b
      ensures arr == EncodeDoc(ArrayDoc(old(values), 0))
    {
      arr := b.Obj();
    }
  }

  lemma {:induction false} NullsLength(n: int)
    ensures |Nulls(n)| == if n > 0 then n else 0
    ensures forall j :: 0 <= j < |Nulls(n)| ==> Nulls(n)[j] == NULL
    decreases if n > 0 then n else 0
  {
    if n > 0 {
      NullsLength(n - 1);
    }
  }
}
