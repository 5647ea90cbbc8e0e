/**
DBClientCursor: a query result that comes from the server in batches, read one
document at a time under a limit. The replies the server will send are part of
the state; how it splits its result over them is arbitrary.
*/
module Cursor {
  /** A reply: the documents of one batch, and the cursor id, 0 when there is nothing more to ask for. */
  datatype Reply<T> = Reply(cursorId: int, docs: seq<T>)

  /** The server answers as long as the cursor lives, and only its last reply may be empty. */
  predicate Behaves<T>(cursorId: int, replies: seq<Reply<T>>)
    decreases |replies|
  {
    if replies == [] then cursorId == 0
    else
      && cursorId != 0
      && (replies[0].docs == [] ==> replies[0].cursorId == 0)
      && Behaves(replies[0].cursorId, replies[1..])
  }

  /** All documents of the replies, in order. */
  function Documents<T>(replies: seq<Reply<T>>): seq<T> {
    if replies == [] then [] else replies[0].docs + Documents(replies[1..])
  }

  function Take<T>(s: seq<T>, n: int): (r: seq<T>)
    ensures n <= 0 ==> r == []
    ensures n >= |s| ==> r == s
    ensures 0 <= n < |s| ==> r == s[..n]
  {
    if n <= 0 then [] else if n < |s| then s[..n] else s
  }

  /** The put-back stack from its top down. */
  function TopDown<T>(stack: seq<T>): seq<T> {
    if stack == [] then [] else [stack[|stack| - 1]] + TopDown(stack[..|stack| - 1])
  }

  /** How many documents to ask for. */
  function NextBatchSize(nToReturn: int, batchSize: int): (n: int)
    ensures nToReturn > 0 && batchSize >= 0 ==> 0 < n <= nToReturn
    ensures nToReturn == 0 ==> n == batchSize
    ensures nToReturn != 0 && batchSize == 0 ==> n == nToReturn
    ensures nToReturn != 0 && batchSize != 0 ==> n <= batchSize && n <= nToReturn && (n == batchSize || n == nToReturn)
  {
    if nToReturn == 0 then batchSize
    else if batchSize == 0 then nToReturn
    else if batchSize < nToReturn then batchSize else nToReturn
  }

  lemma TakeUnderLimit<T>(batch: seq<T>, rest: seq<T>, n: int)
    requires |batch| <= n
    ensures Take(batch + rest, n) == batch + Take(rest, n - |batch|)
  {
  }

  lemma TakeStep<T>(head: T, rest: seq<T>, n: int)
    ensures Take([head] + rest, n + 1) == if n < 0 then [] else [head] + Take(rest, n)
    ensures n < 0 ==> Take(rest, n) == []
  {
  }

  /** What is left of a batch and the batches after it. */
  function Left<T>(docs: seq<T>, pos: nat, replies: seq<Reply<T>>, limited: bool, n: int): seq<T>
    requires pos <= |docs|
  {
    var all := docs[pos..] + Documents(replies);
    if limited then Take(all, n - pos) else all
  }

  /** One document of the batch is gone. */
  lemma LeftStep<T>(docs: seq<T>, pos: nat, replies: seq<Reply<T>>, limited: bool, n: int)
    requires pos < |docs|
    ensures var before, after := Left(docs, pos, replies, limited, n), Left(docs, pos + 1, replies, limited, n);
      if before == [] then after == [] else before == [docs[pos]] + after
  {
    hide Documents, Take;
    var rest := docs[pos + 1..] + Documents(replies);
    assert docs[pos..] + Documents(replies) == [docs[pos]] + rest;
    TakeStep(docs[pos], rest, n - (pos + 1));
  }

  lemma NothingPutBack<T>(rest: seq<T>)
    ensures TopDown([]) + rest == rest
  {
  }

  /** The server is asked for something each time, and never for more than the limit. */
  predicate Within(requested: seq<int>, limit: int) {
    forall i :: 0 <= i < |requested| ==> 0 < requested[i] <= limit
  }

  class DBClientCursor<T> {
    const limit: int          // the nToReturn the query was made with
    const batchSize: int
    const haveLimit: bool
    var docs: seq<T>          // the documents of the current batch
    var nReturned: int
    var pos: int
    var nToReturn: int
    var cursorId: int
    var putBack: seq<T>
    var requested: seq<int>   // sizes asked for in the requests made so far
    var replies: seq<Reply<T>>  // what the server is still going to send
    ghost var earlier: nat    // documents of the batches before the current one

    ghost predicate Valid()
      reads this
    {
      && 0 <= pos <= nReturned == |docs|
      && Behaves(cursorId, replies)
      && (haveLimit <==> limit > 0)
      && (haveLimit ==> 0 < nToReturn && earlier + nToReturn == limit)
      && (!haveLimit ==> nToReturn == limit)
      && (haveLimit && batchSize >= 0 ==> Within(requested, limit))
    }

    /** The documents not yet delivered from the result itself. */
    ghost function Stream(): seq<T>
      requires Valid()
      reads this
    {
      Left(docs, pos, replies, haveLimit, nToReturn)
    }

    /** What the next calls of next() will return. */
    ghost function Remaining(): seq<T>
      requires Valid()
      reads this
    {
      TopDown(putBack) + Stream()
    }

    /** next() has something at hand without asking the server. */
    predicate AtHand()
      reads this
    {
      putBack != [] || pos < nReturned
    }

    /** The query and its first reply (init). */
    constructor (nToReturn: int, bs: int, first: Reply<T>, replies: seq<Reply<T>>)
      requires Behaves(first.cursorId, replies)
      ensures Valid() && putBack == [] && limit == nToReturn && (batchSize == if bs == 1 then 2 else bs)
      ensures requested == [NextBatchSize(nToReturn, batchSize)]
      ensures Remaining() == if nToReturn > 0 then Take(first.docs + Documents(replies), nToReturn)
                             else first.docs + Documents(replies)
    {
      this.limit := nToReturn;
      this.nToReturn := nToReturn;
      batchSize := if bs == 1 then 2 else bs;
      haveLimit := nToReturn > 0;
      putBack := [];
      requested := [NextBatchSize(nToReturn, if bs == 1 then 2 else bs)];
      this.replies := replies;
      earlier := 0;
      // dataReceived
      cursorId := first.cursorId;
      nReturned := |first.docs|;
      pos := 0;
      docs := first.docs;
    }

    method DataReceived(reply: Reply<T>)
      modifies this`cursorId, this`nReturned, this`pos, this`docs
      ensures cursorId == reply.cursorId && docs == reply.docs && nReturned == |docs| && pos == 0
    {
      cursorId := reply.cursorId;
      nReturned := |reply.docs|;
      pos := 0;
      docs := reply.docs;
    }

    /** The preconditions are the source's two `verify`s. */
    method RequestMore()
      requires Valid()
      requires cursorId != 0 && pos == nReturned
      requires haveLimit ==> nToReturn - nReturned > 0
      modifies this
      ensures Valid() && putBack == old(putBack) && Stream() == old(Stream())
      ensures |replies| < |old(replies)| && pos == 0
      ensures docs == [] ==> replies == []
      ensures haveLimit ==> nToReturn == old(nToReturn) - old(nReturned)
      ensures requested == old(requested) + [NextBatchSize(nToReturn, batchSize)]
    {
      if haveLimit {
        TakeUnderLimit(docs[pos..], Documents(replies), nToReturn - pos);
        nToReturn := nToReturn - nReturned;
        earlier := earlier + nReturned;
      }
      requested := requested + [NextBatchSize(nToReturn, batchSize)];
      var response := replies[0];
      replies := replies[1..];
      DataReceived(response);
    }

    /** True exactly when there is another document. */
    method More() returns (more: bool)
      requires Valid()
      modifies this
      ensures Valid() && Remaining() == old(Remaining())
      ensures more <==> Remaining() != []
      ensures more ==> AtHand()
    {
      if putBack != [] {
        return true;
      }
      if haveLimit && pos >= nToReturn {
        return false;
      }
      if pos < nReturned {
        assert (docs[pos..] + Documents(replies))[0] == docs[pos];
        return true;
      }
      if cursorId == 0 {
        return false;
      }
      RequestMore();
      if pos < nReturned {
        assert (docs[pos..] + Documents(replies))[0] == docs[pos];
      }
      return pos < nReturned;
    }

    /**
     The next document; None is the assertion of a next() with nothing at
     hand. The limit is more()'s business: next() alone goes past it.
     */
    method Next() returns (r: Option<T>)
      requires Valid()
      modifies this`pos, this`putBack
      ensures Valid()
      ensures r.None? <==> !old(AtHand())
      ensures r.None? || old(Remaining()) == [] ==> Remaining() == old(Remaining())
      ensures r.Some? && old(Remaining()) != [] ==> [r.value] + Remaining() == old(Remaining())
    {
      hide Valid, Remaining, Stream;
      if putBack != [] {
        r := NextPutBack();
      } else if pos >= nReturned {
        r := None;
      } else {
        r := NextOfBatch();
      }
    }

    /** Takes the document put back last. */
    method NextPutBack() returns (r: Option<T>)
      requires Valid() && putBack != []
      modifies this`putBack
      ensures Valid() && r.Some? && [r.value] + Remaining() == old(Remaining())
    {
      hide Behaves, Left, Within;
      ghost var stream := Stream();
      r := Some(putBack[|putBack| - 1]);
      putBack := putBack[..|putBack| - 1];
      assert Stream() == stream;
      assert [r.value] + (TopDown(putBack) + stream) == ([r.value] + TopDown(putBack)) + stream;
    }

    /** Takes the next document of the batch. */
    method NextOfBatch() returns (r: Option<T>)
      requires Valid() && putBack == [] && pos < nReturned
      modifies this`pos
      ensures Valid() && r.Some?
      ensures old(Remaining()) == [] ==> Remaining() == []
      ensures old(Remaining()) != [] ==> [r.value] + Remaining() == old(Remaining())
    {
      hide Behaves, Left, Within, TopDown;
      NothingPutBack(Stream());
      LeftStep(docs, pos, replies, haveLimit, nToReturn);
      r := Some(docs[pos]);
      pos := pos + 1;
      NothingPutBack(Stream());
    }

    /** A document put back comes next, before anything else. */
    method PutBack(o: T)
      requires Valid()
      modifies this`putBack
      ensures Valid() && Remaining() == [o] + old(Remaining())
    {
      hide Behaves, Left, Within;
      assert (putBack + [o])[..|putBack|] == putBack;
      putBack := putBack + [o];
    }

    /** Reads the cursor to its end (the loop of itcount). */
    method Drain() returns (out: seq<T>)
      requires Valid()
      modifies this
      ensures Valid() && Remaining() == []
      ensures out == old(Remaining())
    {
      hide Valid, Remaining, Stream;
      out := [];
      var more := More();
      while more
        invariant Valid() && (more <==> Remaining() != []) && (more ==> AtHand())
        invariant out + Remaining() == old(Remaining())
        decreases |Remaining()|
      {
        ghost var before := Remaining();
        var d := Next();
        assert out + before == (out + [d.value]) + Remaining();
        out := out + [d.value];
        more := More();
      }
    }
  }

  datatype Option<+T> = None | Some(value: T)

  /** However the server splits it, a query delivers the first min(limit, all) documents of its result. */
  method Query<T>(limit: int, batchSize: int, first: Reply<T>, replies: seq<Reply<T>>) returns (out: seq<T>)
    requires Behaves(first.cursorId, replies)
    ensures var all := first.docs + Documents(replies);
      out == if limit > 0 then Take(all, limit) else all
  {
    var cursor := new DBClientCursor(limit, batchSize, first, replies);
    out := cursor.Drain();
  }
}
