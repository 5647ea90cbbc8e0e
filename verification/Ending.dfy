/**
When the validator's loop ends. A length that moves the position back can keep
it going; it never ends exactly when it comes back to a position and a state
with the stack in between never below where it was.
*/
module Ending {
  import opened Bson
  import opened ValidatorMachine

  predicate Accepted(o: Outcome) { o.Next? && o.c.state == Done }

  /** The loop is over: it got to Done or returned an error. */
  predicate Ended(o: Outcome) { Accepted(o) || o.Stop? }

  ghost predicate Ends(buf: Bytes) { exists n: nat :: Ended(After(buf, n)) }

  predicate Running(o: Outcome) { o.Next? && o.c.state != Done }

  lemma {:induction false} AfterStable(buf: Bytes, n: nat, m: nat)
    requires n <= m && !Running(After(buf, n))
    ensures After(buf, m) == After(buf, n)
  {
    hide Step;
    if n < m {
      AfterStable(buf, n, m - 1);
    }
  }

  lemma RunningUnlessEnded(buf: Bytes, n: nat)
    ensures Running(After(buf, n)) <==> !Ended(After(buf, n))
  {
    hide Step;
    FrameStackInvariant(buf, n);
  }

  /** With sane lengths the loop ends. */
  lemma SaneLengthsEnd(buf: Bytes)
    requires SaneLengths(buf)
    ensures Ends(buf)
  {
    hide Run, Step, SaneStep;
    var m := RunIsLoop(buf, Start, 0);
    assert Ended(After(buf, m));
  }

  // ----- coming back -----

  /** The flag of the topmost of the first h frames. */
  predicate Flag(c: Config, h: nat)
    requires 1 <= h <= |c.frames|
  {
    c.frames[h - 1].IsCodeWithScope()
  }

  /** c above its first h frames looks like d above its first g frames. */
  predicate Like(c: Config, h: nat, d: Config, g: nat) {
    && 1 <= h <= |c.frames| && 1 <= g <= |d.frames|
    && c.pos == d.pos && c.state == d.state
    && c.frames[h..] == d.frames[g..] && Flag(c, h) == Flag(d, g)
  }

  /** A step that leaves the first h frames alone is a step of everything that looks like it. */
  lemma StepLike(buf: Bytes, c: Config, h: nat, d: Config, g: nat)
    requires Like(c, h, d, g) && c.state != Done
    requires Step(buf, c).Next? && |Step(buf, c).c.frames| >= h
    ensures Step(buf, d).Next? && Like(Step(buf, c).c, h, Step(buf, d).c, g)
  {
    hide I32, Wrap32, ElementInfo, ReadUTF8String, OpenFrame, Frame.StartPosition, Frame.IsCodeWithScope;
    match c.state
    case BeginObj =>
      PushLike(c, h, d, g, OpenFrame(c.pos, false, I32(buf, c.pos)));
    case BeginCodeWScope =>
      PushLike(c, h, d, g, OpenFrame(c.pos, true, I32(buf, c.pos)));
    case WithinObj =>
    case _ => PopLike(c, h, d, g);
  }

  lemma PushLike(c: Config, h: nat, d: Config, g: nat, f: Frame)
    requires Like(c, h, d, g)
    ensures (c.frames + [f])[h..] == (d.frames + [f])[g..]
    ensures (c.frames + [f])[h - 1] == c.frames[h - 1] && (d.frames + [f])[g - 1] == d.frames[g - 1]
  {
    assert (c.frames + [f])[h..] == c.frames[h..] + [f];
    assert (d.frames + [f])[g..] == d.frames[g..] + [f];
  }

  lemma PopLike(c: Config, h: nat, d: Config, g: nat)
    requires Like(c, h, d, g) && |c.frames| > h
    ensures |d.frames| > g && c.Top() == d.Top()
    ensures c.Pop()[h..] == d.Pop()[g..] && c.Pop()[h - 1] == c.frames[h - 1] && d.Pop()[g - 1] == d.frames[g - 1]
    ensures c.Pop()[|c.Pop()| - 1].IsCodeWithScope() == d.Pop()[|d.Pop()| - 1].IsCodeWithScope()
  {
    hide Frame.IsCodeWithScope;
    var n := |c.frames| - h;
    assert |c.frames[h..]| == n && |d.frames[g..]| == n;
    assert c.Top() == c.frames[h..][n - 1] && d.Top() == d.frames[g..][n - 1];
    assert c.Pop()[h..] == c.frames[h..][..n - 1] && d.Pop()[g..] == d.frames[g..][..n - 1];
    if n > 1 {
      assert c.Pop()[|c.Pop()| - 1] == c.frames[h..][n - 2] && d.Pop()[|d.Pop()| - 1] == d.frames[g..][n - 2];
    }
  }

  function Height(buf: Bytes, n: nat): nat
    requires After(buf, n).Next?
  {
    |After(buf, n).c.frames|
  }

  /** From i to j the loop runs on without the stack falling below its height at i. */
  predicate Above(buf: Bytes, i: nat, j: nat) {
    After(buf, i).Next? && forall k :: i <= k <= j ==> Running(After(buf, k)) && Height(buf, k) >= Height(buf, i)
  }

  /** Iteration j finds the position, the state and the kind of the topmost frame of iteration i again. */
  predicate Recurs(buf: Bytes, i: nat, j: nat) {
    && i < j && Above(buf, i, j)
    && var c, d := After(buf, i).c, After(buf, j).c;
       && c.frames != [] && d.frames != [] && c.pos == d.pos && c.state == d.state
       && c.Top().IsCodeWithScope() == d.Top().IsCodeWithScope()
  }

  /** What stands at iteration n looks like iteration i. */
  predicate Again(buf: Bytes, i: nat, n: nat) {
    && Running(After(buf, i)) && Running(After(buf, n))
    && Like(After(buf, i).c, Height(buf, i), After(buf, n).c, Height(buf, n))
  }

  /** From there the loop goes the way it went from i on. */
  lemma {:induction false} Replays(buf: Bytes, i: nat, j: nat, n: nat, k: nat)
    requires Above(buf, i, j) && Again(buf, i, n) && i + k <= j
    ensures Running(After(buf, n + k)) && Like(After(buf, i + k).c, Height(buf, i), After(buf, n + k).c, Height(buf, n))
  {
    hide Step, Like;
    if k > 0 {
      Replays(buf, i, j, n, k - 1);
      var c, d := After(buf, i + k - 1).c, After(buf, n + k - 1).c;
      assert Running(After(buf, i + k - 1));
      assert Running(After(buf, i + k)) && Height(buf, i + k) >= Height(buf, i);
      StepLike(buf, c, Height(buf, i), d, Height(buf, n));
      LikeState(After(buf, i + k).c, Height(buf, i), After(buf, n + k).c, Height(buf, n));
    }
  }

  lemma LikeState(c: Config, h: nat, d: Config, g: nat)
    requires Like(c, h, d, g)
    ensures c.state == d.state
  {
  }

  lemma OnceMore(buf: Bytes, i: nat, j: nat, n: nat)
    requires Recurs(buf, i, j) && Again(buf, i, n)
    ensures Again(buf, i, n + (j - i))
  {
    hide Step, Frame.IsCodeWithScope;
    Replays(buf, i, j, n, j - i);
    var c, d, e := After(buf, i).c, After(buf, j).c, After(buf, n + (j - i)).c;
    var h, g := Height(buf, i), Height(buf, n);
    assert |d.frames| - h == |e.frames| - g by { assert |d.frames[h..]| == |e.frames[g..]|; }
    if |d.frames| > h {
      assert d.Top() == d.frames[h..][|d.frames| - h - 1] && e.Top() == e.frames[g..][|e.frames| - g - 1];
    }
    assert c.frames[h..] == [] && e.frames[|e.frames|..] == [];
  }

  lemma {:induction false} FarAgain(buf: Bytes, i: nat, j: nat, m: nat) returns (n: nat)
    requires Recurs(buf, i, j)
    ensures n >= m && Again(buf, i, n)
    decreases m
  {
    hide Step, Frame.IsCodeWithScope;
    if m <= i {
      n := i;
      assert Running(After(buf, i));
    } else {
      n := FarAgain(buf, i, j, m - 1);
      OnceMore(buf, i, j, n);
      n := n + (j - i);
    }
  }

  lemma RecurrenceNeverEnds(buf: Bytes, i: nat, j: nat)
    requires Recurs(buf, i, j)
    ensures !Ends(buf)
  {
    hide Step, Recurs;
    if Ends(buf) {
      var m: nat :| Ended(After(buf, m));
      var n := FarAgain(buf, i, j, m);
      AfterStable(buf, m, n);
    }
  }

  // ----- a loop that never ends comes back -----

  lemma PositionBound(buf: Bytes, c: Config)
    requires c.state != Done && Step(buf, c).Next?
    ensures Step(buf, c).c.pos <= |buf| + 12 || Step(buf, c).c.pos <= c.pos
  {
    hide I32, Wrap32, FindNul, OpenFrame;
  }

  lemma {:induction false} PositionsBounded(buf: Bytes, n: nat)
    requires After(buf, n).Next?
    ensures After(buf, n).c.pos <= |buf| + 12
  {
    hide Step;
    if n > 0 {
      PositionsBounded(buf, n - 1);
      if After(buf, n - 1).c.state != Done {
        PositionBound(buf, After(buf, n - 1).c);
      }
    }
  }

  /** After the first iteration some frame is open. */
  lemma SomeFrame(buf: Bytes, n: nat)
    requires n > 0 && Running(After(buf, n))
    ensures Height(buf, n) > 0
  {
    hide ElementInfo, ReadUTF8String, I32, Wrap32, OpenFrame;
    FrameStackInvariant(buf, n - 1);
  }

  /** From i on the stack never falls below its height at i. */
  ghost predicate Lowest(buf: Bytes, i: nat) {
    After(buf, i).Next? && forall k :: k >= i ==> Running(After(buf, k)) && Height(buf, k) >= Height(buf, i)
  }

  lemma {:induction false} FindLowest(buf: Bytes, n: nat) returns (i: nat)
    requires !Ends(buf) && Running(After(buf, n))
    ensures i >= n && Lowest(buf, i)
    decreases Height(buf, n)
  {
    hide Step, After;
    forall k: nat ensures Running(After(buf, k)) {
      RunningUnlessEnded(buf, k);
    }
    if k :| k >= n && Height(buf, k) < Height(buf, n) {
      i := FindLowest(buf, k);
    } else {
      i := n;
    }
  }

  function StateCode(s: State): nat {
    match s
    case BeginObj => 0
    case WithinObj => 1
    case EndObj => 2
    case BeginCodeWScope => 3
    case EndCodeWScope => 4
    case Done => 5
  }

  function Code(c: Config): nat
    requires c.frames != []
  {
    12 * c.pos + 2 * StateCode(c.state) + if c.Top().IsCodeWithScope() then 1 else 0
  }

  lemma CodeInjective(c: Config, d: Config)
    requires c.frames != [] && d.frames != [] && Code(c) == Code(d)
    ensures c.pos == d.pos && c.state == d.state && c.Top().IsCodeWithScope() == d.Top().IsCodeWithScope()
  {
    hide Frame.IsCodeWithScope;
  }

  function Below(n: nat): (r: set<nat>)
    ensures |r| == n && forall i: nat :: i in r <==> i < n
  {
    if n == 0 then {} else Below(n - 1) + {n - 1}
  }

  function Members(s: seq<nat>): (r: set<nat>)
    ensures forall x :: x in r <==> x in s
    ensures (forall i, j :: 0 <= i < j < |s| ==> s[i] != s[j]) ==> |r| == |s|
  {
    if s == [] then {}
    else
      var last := s[|s| - 1];
      assert s == s[..|s| - 1] + [last];
      Members(s[..|s| - 1]) + {last}
  }

  lemma {:induction false} SubsetSize(a: set<nat>, b: set<nat>)
    requires a <= b
    ensures |a| <= |b|
  {
    if a != {} {
      var x :| x in a;
      SubsetSize(a - {x}, b - {x});
    }
  }

  lemma Pigeonhole(s: seq<nat>, n: nat) returns (i: nat, j: nat)
    requires |s| > n && forall k :: 0 <= k < |s| ==> s[k] < n
    ensures i < j < |s| && s[i] == s[j]
  {
    SubsetSize(Members(s), Below(n));
    i, j :| 0 <= i < j < |s| && s[i] == s[j];
  }

  /** As many lowest iterations as wanted, one behind the other, with their codes. */
  lemma {:induction false} ManyLowest(buf: Bytes, count: nat) returns (at: seq<nat>)
    requires !Ends(buf)
    ensures |at| == count && forall k :: 0 <= k < count ==> at[k] > 0 && Lowest(buf, at[k])
    ensures forall k, m :: 0 <= k < m < count ==> at[k] < at[m]
  {
    hide Step, After, Lowest;
    if count == 0 {
      at := [];
    } else {
      var before := ManyLowest(buf, count - 1);
      var n := if count == 1 then 1 else before[count - 2] + 1;
      RunningUnlessEnded(buf, n);
      var i := FindLowest(buf, n);
      at := before + [i];
    }
  }

  lemma LowestRecurs(buf: Bytes, i: nat, j: nat)
    requires 0 < i < j && Lowest(buf, i) && Lowest(buf, j)
    requires After(buf, i).c.frames != [] && After(buf, j).c.frames != [] && Code(After(buf, i).c) == Code(After(buf, j).c)
    ensures Recurs(buf, i, j)
  {
    hide After, Code;
    CodeInjective(After(buf, i).c, After(buf, j).c);
  }

  lemma NeverEndingRecurs(buf: Bytes) returns (i: nat, j: nat)
    requires !Ends(buf)
    ensures Recurs(buf, i, j)
  {
    hide Step, After, Recurs, Code, Lowest;
    var n := 12 * (|buf| + 13);
    var at := ManyLowest(buf, n + 1);
    forall k | 0 <= k <= n ensures CodeBelow(buf, at[k], n) {
      LowestCode(buf, at[k], n);
    }
    var codes := seq(n + 1, k requires 0 <= k <= n => assert CodeBelow(buf, at[k], n); Code(After(buf, at[k]).c));
    forall k | 0 <= k < |codes| ensures codes[k] < n {
      assert CodeBelow(buf, at[k], n);
    }
    var a, b := Pigeonhole(codes, n);
    assert CodeBelow(buf, at[a], n) && CodeBelow(buf, at[b], n);
    i, j := at[a], at[b];
    LowestRecurs(buf, i, j);
  }

  predicate CodeBelow(buf: Bytes, i: nat, n: nat) {
    After(buf, i).Next? && After(buf, i).c.frames != [] && Code(After(buf, i).c) < n
  }

  lemma LowestCode(buf: Bytes, i: nat, n: nat)
    requires i > 0 && Lowest(buf, i) && n == 12 * (|buf| + 13)
    ensures CodeBelow(buf, i, n)
  {
    hide After, Frame.IsCodeWithScope;
    assert Running(After(buf, i));
    SomeFrame(buf, i);
    PositionsBounded(buf, i);
  }

  /** The loop never ends if and only if it comes back to where it was, the stack never below in between. */
  lemma NeverEndsIffRecurs(buf: Bytes)
    ensures !Ends(buf) <==> exists i, j :: Recurs(buf, i, j)
  {
    hide Recurs, Ends;
    if i, j :| Recurs(buf, i, j) {
      RecurrenceNeverEnds(buf, i, j);
    }
    if !Ends(buf) {
      var i, j := NeverEndingRecurs(buf);
    }
  }

  // ----- moving on, and not -----

  predicate Consumes(s: State) { s in {BeginObj, WithinObj, BeginCodeWScope} }

  /** Every iteration that reads from the buffer moves the position on. */
  ghost predicate MovesOn(buf: Bytes) {
    forall n: nat :: Running(After(buf, n)) && After(buf, n + 1).Next? && Consumes(After(buf, n).c.state) ==>
      After(buf, n + 1).c.pos > After(buf, n).c.pos
  }

  /** Zero or negative lengths do no harm as long as the position moves on. */
  lemma MovingOnEnds(buf: Bytes)
    requires MovesOn(buf)
    ensures Ends(buf)
  {
    hide After, Step, Recurs;
    if !Ends(buf) {
      var i, j := NeverEndingRecurs(buf);
      RecursOnce(buf, i, j);
      StaysOrMoves(buf, i, j, i + 1);
      StaysOrMoves(buf, i, j, j);
    }
  }

  lemma RecursOnce(buf: Bytes, i: nat, j: nat)
    requires Recurs(buf, i, j)
    ensures i < j && Above(buf, i, j) && After(buf, j).c.pos == After(buf, i).c.pos
    ensures Consumes(After(buf, i).c.state)
  {
    hide ElementInfo, ReadUTF8String, I32, Wrap32, OpenFrame;
    assert Running(After(buf, i)) && Running(After(buf, i + 1)) && Height(buf, i + 1) >= Height(buf, i);
  }

  lemma {:induction false} StaysOrMoves(buf: Bytes, i: nat, j: nat, k: nat)
    requires MovesOn(buf) && i < j && Above(buf, i, j) && Consumes(After(buf, i).c.state) && i < k <= j
    ensures After(buf, k).Next? && After(buf, k).c.pos > After(buf, i).c.pos
  {
    hide Step;
    assert Running(After(buf, k)) && Running(After(buf, k - 1));
    if k > i + 1 {
      StaysOrMoves(buf, i, j, k - 1);
      if !Consumes(After(buf, k - 1).c.state) {
        ClosingStays(buf, After(buf, k - 1).c);
      }
    }
  }

  lemma ClosingStays(buf: Bytes, c: Config)
    requires c.state in {EndObj, EndCodeWScope} && Step(buf, c).Next?
    ensures Step(buf, c).c.pos == c.pos
  {
  }

  /** A document with one field `a`, a string whose length prefix is -7. */
  predicate NegativePrefix(buf: Bytes) {
    && |buf| == 11 && buf[0] == 11 && buf[1] == 0 && buf[2] == 0 && buf[3] == 0
    && buf[4] == STRING && buf[5] == 97 && buf[6] == 0
    && buf[7] == 0xf9 && buf[8] == 0xff && buf[9] == 0xff && buf[10] == 0xff
  }

  lemma NegativePrefixElement(buf: Bytes)
    requires NegativePrefix(buf)
    ensures ElementInfo(buf, 4) == Proceed(4, WithinObj)
  {
    hide FindNul;
    FindNulUnique(buf, 5, 6);
    assert U32(buf, 7) == 0xffff_fff9;
    assert ReadUTF8String(buf, 7) == Good(4);
  }

  /** That string brings the position back to its own element, every time. */
  lemma NegativePrefixNeverEnds(buf: Bytes)
    requires NegativePrefix(buf)
    ensures !Ends(buf)
  {
    hide ElementInfo, I32, OpenFrame, Frame.IsCodeWithScope;
    NegativePrefixElement(buf);
    var f := OpenFrame(0, false, I32(buf, 0));
    assert [] + [f] == [f];
    assert After(buf, 0) == Next(Start);
    assert After(buf, 1) == Next(Config(4, [f], WithinObj));
    assert After(buf, 2) == Next(Config(4, [f], WithinObj));
    assert Recurs(buf, 1, 2);
    RecurrenceNeverEnds(buf, 1, 2);
  }
}
