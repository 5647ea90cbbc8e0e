/**
validateBSON in the source's own form: a buffer with a moving position, a
deque of frames and a loop over a state, proved against the machine and,
through it, against the grammar.
*/
module Validator {
  import opened Bson
  import opened Ending
  import opened ValidatorMachine
  import opened ValidatorProof

  class Buffer {
    const buffer: Bytes
    var position: nat

    constructor (bytes: Bytes)
      ensures buffer == bytes && position == 0
    {
      buffer := bytes;
      position := 0;
    }

    method ReadChar() returns (ok: bool, out: Byte)
      modifies this
      ensures ok <==> old(position) < |buffer|
      ensures position == if ok then old(position) + 1 else old(position)
      ensures ok ==> out == buffer[old(position)]
    {
      if position + 1 > |buffer| {
        return false, 0;
      }
      out := buffer[position];
      position := position + 1;
      return true, out;
    }

    method ReadInt() returns (ok: bool, out: int)
      modifies this
      ensures ok <==> old(position) + 4 <= |buffer|
      ensures position == if ok then old(position) + 4 else old(position)
      ensures ok ==> out == I32(buffer, old(position))
    {
      if position + 4 > |buffer| {
        return false, 0;
      }
      out := I32(buffer, position);
      position := position + 4;
      return true, out;
    }

    method ReadCString() returns (status: Status)
      requires position <= |buffer|
      modifies this
      ensures Reads(ValidatorMachine.ReadCString(buffer, old(position)), status, position)
    {
      var x := FindNul(buffer, position);
      if x == |buffer| {
        return InvalidBSON(NoEndOfCString);
      }
      position := x + 1;
      return Ok;
    }

    method ReadUTF8String() returns (status: Status)
      modifies this
      ensures Reads(ValidatorMachine.ReadUTF8String(buffer, old(position)), status, position)
    {
      var ok, sz := ReadInt();
      if !ok {
        return InvalidBSON(InvalidBson);
      }
      ghost var before := position;
      ok := this.Skip(Wrap32(sz - 1));
      SkipIs(before, Wrap32(sz - 1), position);
      if !ok {
        return InvalidBSON(InvalidBson);
      }
      var c;
      ok, c := ReadChar();
      if !ok {
        return InvalidBSON(InvalidBson);
      }
      if c != 0 {
        return InvalidBSON(NotNullTerminated);
      }
      return Ok;
    }

    method Skip(sz: int) returns (ok: bool)
      modifies this
      ensures position < TWO64 && (position - old(position) - sz) % TWO64 == 0
      ensures ok <==> position < |buffer|
    {
      position := (position + sz) % TWO64;
      ok := position < |buffer|;
    }
  }

  /** There is only one place to move to. */
  lemma SkipIs(pos: nat, sz: int, r: nat)
    requires r < TWO64 && (r - pos - sz) % TWO64 == 0
    ensures r == ValidatorMachine.Skip(pos, sz)
  {
    assert r == (pos + sz) + TWO64 * ((r - pos - sz) / TWO64);
  }

  /** A read method did what its specification function says. */
  predicate Reads(read: Read, status: Status, position: nat) {
    match read
    case Good(p) => status == Ok && position == p
    case Bad(reason) => status == InvalidBSON(reason)
  }

  /** validateElementInfo did what its specification function says; plain elements leave the state alone. */
  predicate Informs(info: Info, status: Status, position: nat, state: State, nextState: State) {
    match info
    case Fail(reason) => status == InvalidBSON(reason)
    case Proceed(p, s) => status == Ok && position == p && nextState == if s == WithinObj then state else s
  }

  method ValidateElementInfo(buffer: Buffer, state: State) returns (status: Status, nextState: State)
    modifies buffer
    ensures Informs(ElementInfo(buffer.buffer, old(buffer.position)), status, buffer.position, state, nextState)
  {
    hide I32, Wrap32, ReadUTF8String, ReadCString, ValueInfo;
    nextState := state;
    var ok, tag := buffer.ReadChar();
    if !ok {
      return InvalidBSON(InvalidBson), nextState;
    }
    if tag == EOO {
      return Ok, EndObj;
    }
    status := buffer.ReadCString();
    if status != Ok {
      return status, nextState;
    }
    status, nextState := ValidateValue(buffer, tag, state);
  }

  method ValidateValue(buffer: Buffer, tag: Byte, state: State) returns (status: Status, nextState: State)
    requires buffer.position <= |buffer.buffer|
    modifies buffer
    ensures Informs(ValueInfo(buffer.buffer, tag, old(buffer.position)), status, buffer.position, state, nextState)
  {
    hide I32, Wrap32, ReadUTF8String, ReadCString, Skip;
    nextState := state;
    status := Ok;
    var ok := true;
    if tag in {MIN_KEY, MAX_KEY, JST_NULL, UNDEFINED} {
    } else if tag == JST_OID {
      ok := buffer.Skip(12);
      SkipIs(old(buffer.position), 12, buffer.position);
    } else if tag == NUMBER_INT {
      ok := buffer.Skip(4);
      SkipIs(old(buffer.position), 4, buffer.position);
    } else if tag == BOOL {
      ok := buffer.Skip(1);
      SkipIs(old(buffer.position), 1, buffer.position);
    } else if tag in {NUMBER_DOUBLE, NUMBER_LONG, TIMESTAMP, DATE} {
      ok := buffer.Skip(8);
      SkipIs(old(buffer.position), 8, buffer.position);
    } else if tag == DB_REF {
      status := buffer.ReadUTF8String();
      if status == Ok {
        ghost var before := buffer.position;
        var _ := buffer.Skip(12);
        SkipIs(before, 12, buffer.position);
      }
    } else if tag == REG_EX {
      status := buffer.ReadCString();
      if status == Ok {
        status := buffer.ReadCString();
      }
    } else if tag in {CODE, SYMBOL, STRING} {
      status := buffer.ReadUTF8String();
    } else if tag == BIN_DATA {
      var sz;
      ok, sz := buffer.ReadInt();
      if ok {
        ok := buffer.Skip(Wrap32(1 + sz));
        SkipIs(old(buffer.position) + 4, Wrap32(1 + sz), buffer.position);
      }
    } else if tag == CODE_W_SCOPE {
      nextState := BeginCodeWScope;
    } else if tag in {OBJECT, ARRAY} {
      nextState := BeginObj;
    } else {
      status := InvalidBSON(InvalidType);
    }
    if !ok {
      status := InvalidBSON(InvalidBson);
    }
  }

  /** What the loop returns, or Ok as long as it goes on. */
  function Told(o: Outcome): Status { if o.Stop? then InvalidBSON(o.reason) else Ok }

  /** The switch on the state: one iteration of the loop is one step of the machine. */
  method Iterate(buffer: Buffer, open: seq<Frame>, state: State)
    returns (status: Status, frames: seq<Frame>, nextState: State)
    requires state != Done && (state in {EndObj, EndCodeWScope} ==> open != [])
    modifies buffer
    ensures var o := Step(buffer.buffer, Config(old(buffer.position), open, state));
      && status == Told(o)
      && (status == Ok ==> o == Next(Config(buffer.position, frames, nextState)))
  {
    hide I32, ElementInfo;
    frames, nextState := open, state;
    match state {
      case BeginObj =>
        var start := buffer.position;
        var ok, expectedSize := buffer.ReadInt();
        if !ok {
          status := InvalidBSON(SizeLargerThanBuffer);
          return;
        }
        frames := frames + [OpenFrame(start, false, expectedSize)];
        status, nextState := ValidateElementInfo(buffer, WithinObj);
      case WithinObj =>
        status, nextState := ValidateElementInfo(buffer, state);
      case EndObj =>
        var actualLength := Wrap32(buffer.position - frames[|frames| - 1].StartPosition());
        if actualLength != frames[|frames| - 1].expectedSize {
          status := InvalidBSON(LengthMismatch);
          return;
        }
        frames := frames[..|frames| - 1];
        status := Ok;
        if frames == [] {
          nextState := Done;
        } else if frames[|frames| - 1].IsCodeWithScope() {
          nextState := EndCodeWScope;
        } else {
          nextState := WithinObj;
        }
      case BeginCodeWScope =>
        var start := buffer.position;
        var ok, expectedSize := buffer.ReadInt();
        if !ok {
          status := InvalidBSON(InvalidCodeWScopeSize);
          return;
        }
        frames := frames + [OpenFrame(start, true, expectedSize)];
        status := buffer.ReadUTF8String();
        nextState := BeginObj;
      case EndCodeWScope =>
        var actualLength := Wrap32(buffer.position - frames[|frames| - 1].StartPosition());
        if actualLength != frames[|frames| - 1].expectedSize {
          status := InvalidBSON(CodeWScopeLengthMismatch);
          return;
        }
        frames := frames[..|frames| - 1];
        status := if frames == [] then InvalidBSON(UnnestedCodeWScope) else Ok;
        nextState := WithinObj;
    }
  }

  /**
   At most `steps` iterations of the loop, on any buffer: whether it is over by
   then, and if so with OK or with the error that the machine reaches.
   */
  method ValidateBSONIterative(buffer: Buffer, steps: nat) returns (ended: bool, status: Status)
    requires buffer.position == 0
    modifies buffer
    ensures ended <==> Ended(After(buffer.buffer, steps))
    ensures ended ==> status == Told(After(buffer.buffer, steps))
  {
    hide Step;
    ghost var buf := buffer.buffer;
    var n := 0;
    var frames: seq<Frame> := [];
    var state := BeginObj;
    while state != Done
      invariant n <= steps && After(buf, n) == Next(Config(buffer.position, frames, state))
      decreases steps - n
    {
      if n == steps {
        return false, Ok;
      }
      LoopStep(buf, n, steps);
      n := n + 1;
      status, frames, state := Iterate(buffer, frames, state);
      if status != Ok {
        return true, status;
      }
    }
    AfterStable(buf, n, steps);
    return true, Ok;
  }

  /** One more iteration, and what it means when it is the last one. */
  lemma LoopStep(buf: Bytes, n: nat, steps: nat)
    requires n < steps && Running(After(buf, n))
    ensures After(buf, n + 1) == Step(buf, After(buf, n).c)
    ensures After(buf, n).c.state in {EndObj, EndCodeWScope} ==> After(buf, n).c.frames != []
    ensures Step(buf, After(buf, n).c).Stop? ==> After(buf, steps) == Step(buf, After(buf, n).c)
  {
    hide Step;
    FrameStackInvariant(buf, n);
    if After(buf, n + 1).Stop? {
      AfterStable(buf, n + 1, steps);
    }
  }

  /**
   Given iterations enough to end, the buffer starts with a document of the
   grammar exactly when the result is OK and the lengths met were sane.
   */
  method ValidateBSON(originalBuffer: Bytes, steps: nat) returns (ended: bool, status: Status)
    ensures ended <==> |originalBuffer| < 5 || Ended(After(originalBuffer, steps))
    ensures ended ==> (HasDocument(originalBuffer) <==> status == Ok && SaneLengths(originalBuffer))
  {
    hide Run, Step;
    if |originalBuffer| < 5 {
      return true, InvalidBSON(TooShort);
    }
    var buffer := new Buffer(originalBuffer);
    ended, status := ValidateBSONIterative(buffer, steps);
    if ended {
      DocumentIffAcceptedAndSane(originalBuffer, steps);
    }
  }

  // ----- lengths that are not sane -----

  /** The buffer starts with a document if and only if the loop gets to Done and the lengths were sane. */
  lemma DocumentIffAcceptedAndSane(buf: Bytes, n: nat)
    requires Ended(After(buf, n))
    ensures HasDocument(buf) <==> Accepted(After(buf, n)) && SaneLengths(buf)
  {
    hide Run, Step, SaneStep, HasDocument;
    RunRefinesGrammar(buf);
    var m := RunIsLoop(buf, Start, 0);
    var far := if n < m then m else n;
    AfterStable(buf, n, far);
    if !Run(buf, Start).Insane? {
      AfterStable(buf, m, far);
    }
  }

  /** The twelve bytes of a document with one field `a`: a string whose prefix is 0 and whose text is missing. */
  predicate ZeroPrefix(buf: Bytes) {
    && |buf| == 12 && buf[0] == 12 && buf[1] == 0 && buf[2] == 0 && buf[3] == 0
    && buf[4] == STRING && buf[5] == 97 && buf[6] == 0
    && buf[7] == 0 && buf[8] == 0 && buf[9] == 0 && buf[10] == 0 && buf[11] == 0
  }

  /** A string prefix of zero is read as an empty value: the prefix's own last byte is taken for the terminator. */
  lemma ZeroPrefixRead(buf: Bytes, p: nat)
    requires p < TWO31 && p + 4 <= |buf| && I32(buf, p) == 0
    ensures ReadUTF8String(buf, p) == Good(p + 4)
  {
    hide Wrap32, Skip;
    assert buf[p + 3] == 0 by {
      AtI32(buf, p, 0);
      assert buf[p..p + 4][3] == 0;
    }
  }

  lemma SmallI32(buf: Bytes, p: nat)
    requires p + 4 <= |buf| && buf[p + 1] == 0 && buf[p + 2] == 0 && buf[p + 3] == 0
    ensures I32(buf, p) == buf[p]
  {
    hide Wrap32;
    assert U32(buf, p) == buf[p];
  }

  lemma ZeroPrefixElement(buf: Bytes)
    requires ZeroPrefix(buf)
    ensures ElementInfo(buf, 4) == Proceed(11, WithinObj) && !SaneElement(buf, 4)
    ensures ElementInfo(buf, 11) == Proceed(12, EndObj)
  {
    hide FindNul, I32, ReadUTF8String, SkipOver;
    SmallI32(buf, 7);
    FindNulUnique(buf, 5, 6);
    ZeroPrefixRead(buf, 7);
  }

  /** A string prefix of zero: accepted by the loop, and no document. */
  lemma ZeroPrefixAccepted(buf: Bytes)
    requires ZeroPrefix(buf)
    ensures Accepted(After(buf, 3)) && !HasDocument(buf)
  {
    hide Run, HasDocument, ElementInfo, SaneElement, I32, Wrap32, OpenFrame, Frame.StartPosition;
    SmallI32(buf, 0);
    ZeroPrefixElement(buf);
    var f := OpenFrame(0, false, 12);
    assert After(buf, 0) == Next(Start);
    assert [] + [f] == [f];
    assert After(buf, 1) == Next(Config(11, [f], WithinObj));
    assert After(buf, 2) == Next(Config(12, [f], EndObj));
    assert Config(12, [f], EndObj).Pop() == [];
    RunInsane(buf, Start);
    RunRefinesGrammar(buf);
  }

  lemma RunInsane(buf: Bytes, c: Config)
    requires FramesOk(c) && c.state != Done && !SaneStep(buf, c)
    ensures Run(buf, c) == Insane
  {
  }
}
