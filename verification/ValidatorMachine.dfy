/**
The validator of bson_validate.cpp as a machine: one step per iteration of its
`while (state != Done)` loop, over a position, a stack of frames and a state.

Arithmetic follows the source: positions are 64-bit and wrap, length prefixes
are signed 32-bit, a frame packs its start position with a flag into one word.
*/
module ValidatorMachine {
  import opened Bson

  const TWO64: int := 0x1_0000_0000_0000_0000

  datatype Reason =
    | TooShort
    | SizeLargerThanBuffer
    | NoEndOfCString
    | NotNullTerminated
    | InvalidBson
    | InvalidType
    | LengthMismatch
    | InvalidCodeWScopeSize
    | CodeWScopeLengthMismatch
    | UnnestedCodeWScope

  datatype Status = Ok | InvalidBSON(reason: Reason)

  datatype State = BeginObj | WithinObj | EndObj | BeginCodeWScope | EndCodeWScope | Done

  /** An open object or code-with-scope; bit 31 of the word is the code-with-scope flag. */
  datatype Frame = Frame(word: nat, expectedSize: int) {
    function StartPosition(): nat { word % TWO31 }

    predicate IsCodeWithScope() { word / TWO31 % 2 == 1 }

    function SetStartPosition(pos: nat): (f: Frame)
      ensures f.StartPosition() == pos % TWO31
      ensures f.IsCodeWithScope() == IsCodeWithScope()
    {
      this.(word := (if IsCodeWithScope() then TWO31 else 0) + pos % TWO31)
    }

    function SetIsCodeWithScope(flag: bool): (f: Frame)
      ensures f.StartPosition() == StartPosition()
      ensures f.IsCodeWithScope() == flag
    {
      this.(word := (if flag then TWO31 else 0) + word % TWO31)
    }
  }

  function OpenFrame(pos: nat, isCodeWithScope: bool, expectedSize: int): (f: Frame)
    ensures f.StartPosition() == pos % TWO31
    ensures f.IsCodeWithScope() == isCodeWithScope
    ensures f.expectedSize == expectedSize
  {
    Frame(0, expectedSize).SetStartPosition(pos).SetIsCodeWithScope(isCodeWithScope)
  }

  datatype Config = Config(pos: nat, frames: seq<Frame>, state: State) {
    function Top(): Frame
      requires frames != []
    {
      frames[|frames| - 1]
    }

    function Pop(): seq<Frame>
      requires frames != []
    {
      frames[..|frames| - 1]
    }
  }

  // ----- reading from the buffer -----

  datatype Read = Good(pos: nat) | Bad(reason: Reason)

  /** `_position += sz` on an unsigned 64-bit position. */
  function Skip(pos: nat, sz: int): (r: nat)
    ensures 0 <= pos + sz < TWO64 ==> r == pos + sz
  {
    (pos + sz) % TWO64
  }

  function ReadCString(buf: Bytes, pos: nat): (r: Read)
    requires pos <= |buf|
    ensures r.Good? ==> pos < r.pos <= |buf|
  {
    var q := FindNul(buf, pos);
    if q == |buf| then Bad(NoEndOfCString) else Good(q + 1)
  }

  function ReadUTF8String(buf: Bytes, pos: nat): Read {
    if pos + 4 > |buf| then Bad(InvalidBson)
    else
      var p := Skip(pos + 4, Wrap32(I32(buf, pos) - 1));
      if p >= |buf| then Bad(InvalidBson)
      else if buf[p] != 0 then Bad(NotNullTerminated)
      else Good(p + 1)
  }

  datatype Info = Fail(reason: Reason) | Proceed(pos: nat, state: State)

  function SkipOver(buf: Bytes, pos: nat, sz: int): Info {
    var p := Skip(pos, sz);
    if p < |buf| then Proceed(p, WithinObj) else Fail(InvalidBson)
  }

  /** The switch on the element type, after the name has been read. */
  function ValueInfo(buf: Bytes, tag: Byte, pos: nat): (r: Info)
    requires pos <= |buf|
    ensures r.Proceed? ==> r.state in {WithinObj, BeginObj, BeginCodeWScope}
  {
    if tag in {MIN_KEY, MAX_KEY, JST_NULL, UNDEFINED} then Proceed(pos, WithinObj)
    else if tag == JST_OID then SkipOver(buf, pos, 12)
    else if tag == NUMBER_INT then SkipOver(buf, pos, 4)
    else if tag == BOOL then SkipOver(buf, pos, 1)
    else if tag in {NUMBER_DOUBLE, NUMBER_LONG, TIMESTAMP, DATE} then SkipOver(buf, pos, 8)
    else if tag == DB_REF then
      match ReadUTF8String(buf, pos)
      case Bad(reason) => Fail(reason)
      case Good(p) => Proceed(Skip(p, 12), WithinObj)  // the result of this skip is ignored
    else if tag == REG_EX then
      match ReadCString(buf, pos)
      case Bad(reason) => Fail(reason)
      case Good(p) =>
        match ReadCString(buf, p)
        case Bad(reason) => Fail(reason)
        case Good(q) => Proceed(q, WithinObj)
    else if tag in {CODE, SYMBOL, STRING} then
      match ReadUTF8String(buf, pos)
      case Bad(reason) => Fail(reason)
      case Good(p) => Proceed(p, WithinObj)
    else if tag == BIN_DATA then
      if pos + 4 > |buf| then Fail(InvalidBson)
      else SkipOver(buf, pos + 4, Wrap32(1 + I32(buf, pos)))
    else if tag == CODE_W_SCOPE then Proceed(pos, BeginCodeWScope)
    else if tag in {OBJECT, ARRAY} then Proceed(pos, BeginObj)
    else Fail(InvalidType)
  }

  function ElementInfo(buf: Bytes, pos: nat): (r: Info)
    ensures r.Proceed? ==> r.state in {WithinObj, EndObj, BeginObj, BeginCodeWScope}
    ensures r.Fail? ==> r.reason != UnnestedCodeWScope
  {
    if pos + 1 > |buf| then Fail(InvalidBson)
    else if buf[pos] == EOO then Proceed(pos + 1, EndObj)
    else
      match ReadCString(buf, pos + 1)
      case Bad(reason) => Fail(reason)
      case Good(p) => ValueInfo(buf, buf[pos], p)
  }

  // ----- one iteration of the loop -----

  /** Fault: the source would use `curr` or pop a frame with no frame open. */
  datatype Outcome = Next(c: Config) | Stop(reason: Reason) | Fault

  function AfterElement(buf: Bytes, pos: nat, frames: seq<Frame>): Outcome {
    match ElementInfo(buf, pos)
    case Fail(reason) => Stop(reason)
    case Proceed(p, state) => Next(Config(p, frames, state))
  }

  function ActualLength(c: Config): int
    requires c.frames != []
  {
    Wrap32(c.pos - c.Top().StartPosition())
  }

  predicate Nested(frames: seq<Frame>) {
    forall i :: 0 <= i < |frames| && frames[i].IsCodeWithScope() ==>
      i > 0 && !frames[i - 1].IsCodeWithScope()
  }

  /**
   The shape of the frame stack: the bottom frame is an object, every
   code-with-scope frame lies directly on an object frame, and the state says
   what is on top.
   */
  predicate FramesOk(c: Config) {
    && Nested(c.frames)
    && (c.state == Done ==> c.frames == [])
    && (c.state in {WithinObj, EndObj, BeginCodeWScope} ==> c.frames != [] && !c.Top().IsCodeWithScope())
    && (c.state == EndCodeWScope ==> c.frames != [] && c.Top().IsCodeWithScope())
  }

  function Step(buf: Bytes, c: Config): (o: Outcome)
    requires c.state != Done
  {
    match c.state
    case BeginObj =>
      if c.pos + 4 > |buf| then Stop(SizeLargerThanBuffer)
      else AfterElement(buf, c.pos + 4, c.frames + [OpenFrame(c.pos, false, I32(buf, c.pos))])
    case WithinObj =>
      AfterElement(buf, c.pos, c.frames)
    case EndObj =>
      if c.frames == [] then Fault
      else if ActualLength(c) != c.Top().expectedSize then Stop(LengthMismatch)
      else if c.Pop() == [] then Next(Config(c.pos, [], Done))
      else if c.Pop()[|c.Pop()| - 1].IsCodeWithScope() then Next(Config(c.pos, c.Pop(), EndCodeWScope))
      else Next(Config(c.pos, c.Pop(), WithinObj))
    case BeginCodeWScope =>
      if c.pos + 4 > |buf| then Stop(InvalidCodeWScopeSize)
      else
        (match ReadUTF8String(buf, c.pos + 4)
         case Bad(reason) => Stop(reason)
         case Good(p) => Next(Config(p, c.frames + [OpenFrame(c.pos, true, I32(buf, c.pos))], BeginObj)))
    case EndCodeWScope =>
      if c.frames == [] then Fault
      else if ActualLength(c) != c.Top().expectedSize then Stop(CodeWScopeLengthMismatch)
      else if c.Pop() == [] then Stop(UnnestedCodeWScope)
      else Next(Config(c.pos, c.Pop(), WithinObj))
  }

  lemma PushKeepsShape(frames: seq<Frame>, f: Frame)
    requires Nested(frames)
    requires f.IsCodeWithScope() ==> frames != [] && !frames[|frames| - 1].IsCodeWithScope()
    ensures Nested(frames + [f])
  {
  }

  lemma StepKeepsFrames(buf: Bytes, c: Config)
    requires FramesOk(c) && c.state != Done
    ensures var o := Step(buf, c);
      && (o.Next? ==> FramesOk(o.c))
      && o != Stop(UnnestedCodeWScope) && o != Fault
  {
    hide I32, Wrap32, ElementInfo, Frame.StartPosition;
    match c.state
    case BeginObj =>
      if c.pos + 4 <= |buf| {
        PushKeepsShape(c.frames, OpenFrame(c.pos, false, I32(buf, c.pos)));
      }
    case BeginCodeWScope =>
      if c.pos + 4 <= |buf| {
        PushKeepsShape(c.frames, OpenFrame(c.pos, true, I32(buf, c.pos)));
      }
    case _ =>
  }

  const Start: Config := Config(0, [], BeginObj)

  /** What n iterations of the loop make of the start configuration. */
  function After(buf: Bytes, n: nat): Outcome {
    if n == 0 then Next(Start)
    else
      var o := After(buf, n - 1);
      if o.Next? && o.c.state != Done then Step(buf, o.c) else o
  }

  /** In every state the loop can reach, sane lengths or not, the frame stack has its shape. */
  lemma {:induction false} FrameStackInvariant(buf: Bytes, n: nat)
    ensures After(buf, n).Next? ==> FramesOk(After(buf, n).c)
    ensures After(buf, n) != Stop(UnnestedCodeWScope) && After(buf, n) != Fault
  {
    if n > 0 {
      FrameStackInvariant(buf, n - 1);
      var o := After(buf, n - 1);
      if o.Next? && o.c.state != Done {
        StepKeepsFrames(buf, o.c);
      }
    }
  }

  // ----- sane lengths -----

  /**
   The length prefix in front of a value is one the source's integer types
   can carry: positive for strings, not negative for binary data, and the
   position itself below 2^31.
   */
  predicate SaneValue(buf: Bytes, tag: Byte, pos: nat) {
    && pos < TWO31
    && (tag in {CODE, SYMBOL, STRING, DB_REF} && pos + 4 <= |buf| ==> I32(buf, pos) >= 1)
    && (tag == BIN_DATA && pos + 4 <= |buf| ==> 0 <= I32(buf, pos) < TWO31 - 1)
  }

  predicate SaneElement(buf: Bytes, pos: nat) {
    && pos < TWO31
    && (pos + 1 <= |buf| && buf[pos] != EOO && ReadCString(buf, pos + 1).Good? ==>
          SaneValue(buf, buf[pos], ReadCString(buf, pos + 1).pos))
  }

  predicate SaneStep(buf: Bytes, c: Config) {
    match c.state
    case BeginObj => SaneElement(buf, c.pos + 4)
    case WithinObj => SaneElement(buf, c.pos)
    case BeginCodeWScope => SaneValue(buf, STRING, c.pos + 4)
    case _ => c.pos < TWO31
  }

  /** Bytes the machine may still consume. */
  function Budget(buf: Bytes, c: Config): nat {
    if c.pos <= |buf| then |buf| - c.pos + 1 else 0
  }

  lemma SaneString(buf: Bytes, pos: nat)
    requires pos < TWO31 + 4 && (pos + 4 <= |buf| ==> I32(buf, pos) >= 1)
    ensures ReadUTF8String(buf, pos) ==
      if pos + 4 > |buf| then Bad(InvalidBson) else
      var p := pos + 3 + I32(buf, pos);
      if p >= |buf| then Bad(InvalidBson) else if buf[p] != 0 then Bad(NotNullTerminated) else Good(p + 1)
  {
    hide I32, Wrap32, Skip;
  }

  lemma SaneSkip(buf: Bytes, pos: nat, sz: int)
    requires pos < TWO31 + 4 && 0 <= sz < TWO32
    ensures SkipOver(buf, pos, sz) == if pos + sz < |buf| then Proceed(pos + sz, WithinObj) else Fail(InvalidBson)
  {
    hide Skip;
  }

  lemma SaneValueAdvances(buf: Bytes, tag: Byte, pos: nat)
    requires pos <= |buf| && SaneValue(buf, tag, pos) && ValueInfo(buf, tag, pos).Proceed?
    ensures ValueInfo(buf, tag, pos).pos >= pos
  {
    hide I32, Wrap32, Skip, SkipOver, ReadUTF8String;
    if tag in {CODE, SYMBOL, STRING, DB_REF} {
      SaneString(buf, pos);
    } else if tag == BIN_DATA && pos + 4 <= |buf| {
      SaneSkip(buf, pos + 4, 1 + I32(buf, pos));
    } else {
      SaneSkip(buf, pos, 12);
      SaneSkip(buf, pos, 4);
      SaneSkip(buf, pos, 1);
      SaneSkip(buf, pos, 8);
    }
  }

  lemma SaneElementAdvances(buf: Bytes, pos: nat)
    requires SaneElement(buf, pos) && ElementInfo(buf, pos).Proceed?
    ensures ElementInfo(buf, pos).pos > pos && pos < |buf|
  {
    if buf[pos] != EOO {
      SaneValueAdvances(buf, buf[pos], ReadCString(buf, pos + 1).pos);
    }
  }

  /** Every sane iteration consumes bytes, or closes a frame without consuming any. */
  lemma StepDecreases(buf: Bytes, c: Config)
    requires FramesOk(c) && c.state != Done && SaneStep(buf, c) && Step(buf, c).Next?
    ensures var b := Step(buf, c).c;
      || Budget(buf, b) < Budget(buf, c)
      || (Budget(buf, b) == Budget(buf, c) && |b.frames| < |c.frames|)
  {
    match c.state
    case BeginObj => SaneElementAdvances(buf, c.pos + 4);
    case WithinObj => SaneElementAdvances(buf, c.pos);
    case _ =>
  }

  // ----- whole runs -----

  datatype Result = Accept | Reject(reason: Reason) | Insane

  /** The verdict of the loop from c on; Insane when a length on the way is not sane. */
  function Run(buf: Bytes, c: Config): Result
    requires FramesOk(c)
    decreases Budget(buf, c), |c.frames|
  {
    if c.state == Done then Accept
    else if !SaneStep(buf, c) then Insane
    else
      match Step(buf, c)
      case Fault => Insane
      case Stop(reason) => Reject(reason)
      case Next(b) =>
        StepDecreases(buf, c);
        StepKeepsFrames(buf, c);
        Run(buf, b)
  }

  /** The element a step looks at; a BeginObj step falls through into its first element. */
  function Here(c: Config): seq<nat> {
    match c.state
    case BeginObj => [c.pos + 4]
    case WithinObj => [c.pos]
    case _ => []
  }

  /** Where the machine stands each time it looks at an element (the EOO included), in order. */
  function Visits(buf: Bytes, c: Config): seq<nat>
    requires FramesOk(c)
    decreases Budget(buf, c), |c.frames|
  {
    if c.state == Done || !SaneStep(buf, c) then []
    else
      match Step(buf, c)
      case Next(b) =>
        StepDecreases(buf, c);
        StepKeepsFrames(buf, c);
        Here(c) + Visits(buf, b)
      case _ => Here(c)
  }

  /** The lengths met while validating buf are all sane. */
  predicate SaneLengths(buf: Bytes) { Run(buf, Start) != Insane }

  lemma RunStep(buf: Bytes, c: Config, b: Config)
    requires FramesOk(c) && c.state != Done && SaneStep(buf, c) && Step(buf, c) == Next(b)
    ensures FramesOk(b)
    ensures Run(buf, c) == Run(buf, b) && Visits(buf, c) == Here(c) + Visits(buf, b)
  {
    hide Step, SaneStep, FramesOk, Budget;
    StepKeepsFrames(buf, c);
  }

  /** Run is the verdict of the iterated loop: it accepts exactly when the loop gets to Done. */
  lemma {:induction false} RunIsLoop(buf: Bytes, c: Config, n: nat) returns (m: nat)
    requires FramesOk(c) && After(buf, n) == Next(c)
    ensures match Run(buf, c)
      case Accept => After(buf, m).Next? && After(buf, m).c.state == Done
      case Reject(reason) => After(buf, m) == Stop(reason)
      case Insane => After(buf, m).Next? && After(buf, m).c.state != Done && !SaneStep(buf, After(buf, m).c)
    decreases Budget(buf, c), |c.frames|
  {
    hide Step, SaneStep, FramesOk, Budget;
    if c.state == Done || !SaneStep(buf, c) {
      m := n;
    } else {
      StepKeepsFrames(buf, c);
      assert After(buf, n + 1) == Step(buf, c);
      if Step(buf, c).Next? {
        StepDecreases(buf, c);
        m := RunIsLoop(buf, Step(buf, c).c, n + 1);
      } else {
        m := n + 1;
      }
    }
  }
}
