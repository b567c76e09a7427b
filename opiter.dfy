/** `OpIter` (Changeset.js lines 166-230): a cursor over an op string that
    always holds the next match of the op regex. */
module OpIters {
  import opened Results
  import opened Ops

  /** Where the regex's `lastIndex` lands after one match at `i`. */
  function MatchEnd(s: string, i: nat): (j: nat)
    requires i <= |s|
    ensures i <= j <= |s| + 1
  {
    match ScanOp(s, i)
    case Token(_, e) => e
    case Halt => i
    case Fault => i + 1
  }

  class OpIter {
    const opsStr: string
    var curIndex: nat
    var prevIndex: nat
    /** `_regexResult`: the match found at `prevIndex`. */
    var current: Scan

    /** `current` is the match at `prevIndex`, and it is not the error token
        (meeting it throws, so no live iterator holds it). */
    ghost predicate Valid()
      reads this
    {
      prevIndex <= |opsStr| && current == ScanOp(opsStr, prevIndex) && !current.Fault?
      && curIndex == MatchEnd(opsStr, prevIndex) && rest == ParseOpsFrom(opsStr, prevIndex)
    }

    /** The ops still to be returned, and whether the error token follows:
        what the op string decodes to from `prevIndex` on. */
    ghost var rest: Stream

    constructor Start(s: string)
      ensures opsStr == s && prevIndex == 0 && curIndex == 0
    {
      opsStr := s;
      curIndex := 0;
      prevIndex := 0;
      current := Halt;
      rest := Stream([], false);
    }

    /** `_nextRegexMatch()`: matches at `curIndex` and throws on `?`. */
    method NextMatch() returns (o: Outcome)
      requires curIndex <= |opsStr|
      modifies this
      ensures prevIndex == old(curIndex) && current == ScanOp(opsStr, prevIndex)
      ensures rest == ParseOpsFrom(opsStr, prevIndex)
      ensures curIndex == MatchEnd(opsStr, prevIndex)
      ensures o.Fail? <==> current.Fault?
      ensures o.Fail? ==> o.error == ErrorOpcode
    {
      prevIndex := curIndex;
      current := ScanOp(opsStr, curIndex);
      curIndex := MatchEnd(opsStr, prevIndex);
      rest := ParseOpsFrom(opsStr, prevIndex);
      if current.Fault? {
        return Fail(ErrorOpcode);
      }
      return Pass;
    }

    /** `new OpIter(opsStr)`: the constructor prefetches the first match and
        so throws when the string starts with the error token. */
    static method Open(s: string) returns (r: Result<OpIter>)
      ensures r.Err? <==> OpenStream(ParseOps(s)).Fail?
      ensures r.Err? ==> r.error == ErrorOpcode
      ensures r.Ok? ==> fresh(r.value) && r.value.Valid() && r.value.opsStr == s
      ensures r.Ok? ==> r.value.rest == ParseOps(s)
    {
      var it := new OpIter.Start(s);
      var o := it.NextMatch();
      if o.Fail? {
        return Err(o.error);
      }
      return Ok(it);
    }

    /** `hasNext()`: the pending match is not empty. */
    function HasNext(): (b: bool)
      reads this
      requires Valid()
      ensures b <==> rest.ops != []
      ensures !b ==> !rest.fault
    {
      current.Token?
    }

    /** `next()`: returns the pending op and prefetches the following match. */
    method Next() returns (r: Result<Op>)
      requires Valid()
      modifies this
      ensures StreamNext(old(rest)).Ok? <==> r.Ok?
      ensures r.Err? ==> r.error == StreamNext(old(rest)).error
      ensures r.Ok? ==> Valid() && r.value == StreamNext(old(rest)).value.0
                        && rest == StreamNext(old(rest)).value.1
    {
      if !current.Token? {
        return Err(NoMoreOperations);
      }
      var op := current.op;
      ghost var tail := ParseOpsFrom(opsStr, current.end);
      assert rest.ops == [op] + tail.ops && rest.fault == tail.fault;
      var o := NextMatch();
      if o.Fail? {
        return Err(o.error);
      }
      assert ([op] + tail.ops)[1..] == tail.ops;
      return Ok(op);
    }
  }

  /** What a `for (const op of new OpIter(s))` loop sees: every op, or the
      error token somewhere in the stream. */
  function AllOps(s: string): (r: Result<seq<Op>>)
    ensures r.Ok? ==> AllParsed(r.value) && r.value == ParseOps(s).ops
    ensures r.Err? <==> ParseOps(s).fault
    ensures r.Err? ==> r.error == ErrorOpcode
  {
    var st := ParseOps(s);
    if st.fault then Err(ErrorOpcode) else Ok(st.ops)
  }

  /** The ops a for-of loop handles before the iterator throws: all of them
      when the stream is clean, all but the last when the error token follows
      (`next()` throws while prefetching past the last op). */
  function Visible(st: Stream): (v: seq<Op>)
    ensures st.fault ==> |v| == if st.ops == [] then 0 else |st.ops| - 1
    ensures !st.fault ==> v == st.ops
    ensures v <= st.ops
  {
    if st.fault && st.ops != [] then st.ops[..|st.ops| - 1] else st.ops
  }

  /** Drains an iterator, as `for (const op of new OpIter(s))` does. */
  method CollectOps(s: string) returns (r: Result<seq<Op>>)
    ensures r == AllOps(s)
  {
    hide ScanOp, ParseOpsFrom, MatchEnd;
    var it :- OpIter.Open(s);
    var done: seq<Op> := [];
    while it.HasNext()
      invariant it.Valid() && it.opsStr == s
      invariant done + it.rest.ops == ParseOps(s).ops && it.rest.fault == ParseOps(s).fault
      decreases |it.rest.ops|
    {
      ghost var before := it.rest;
      var op :- it.Next();
      assert before.ops == [op] + it.rest.ops;
      done := done + [op];
    }
    assert done == ParseOps(s).ops;
    return Ok(done);
  }

  /** The state a loop over `ops` reaches when each op updates it by `step`;
      the first failing step ends the loop with its error. */
  function Fold<S>(step: (S, Op) -> Result<S>, init: S, ops: seq<Op>): Result<S>
  {
    if ops == [] then Ok(init)
    else
      var s :- Fold(step, init, ops[..|ops| - 1]);
      step(s, ops[|ops| - 1])
  }

  /** `for (const op of new OpIter(s)) { step }`: the visible ops are folded
      in order; then the error token, if the stream has one, is thrown. */
  function ForOf<S>(step: (S, Op) -> Result<S>, init: S, st: Stream): Result<S>
  {
    var s :- Fold(step, init, Visible(st));
    if st.fault then Err(ErrorOpcode) else Ok(s)
  }

  /** A loop ends cleanly exactly when the stream has no error token and
      no step fails, with the state the steps reach. */
  lemma {:induction false} ForOfOk<S>(step: (S, Op) -> Result<S>, init: S, st: Stream)
    ensures ForOf(step, init, st).Ok? <==> !st.fault && Fold(step, init, Visible(st)).Ok?
    ensures ForOf(step, init, st).Ok? ==> ForOf(step, init, st) == Fold(step, init, Visible(st))
  {
  }

  lemma {:induction false} FoldSnoc<S>(step: (S, Op) -> Result<S>, init: S, ops: seq<Op>, op: Op)
    ensures Fold(step, init, ops + [op])
            == (match Fold(step, init, ops) case Err(e) => Err(e) case Ok(s) => step(s, op))
  {
    assert (ops + [op])[..|ops|] == ops;
  }

  /** Once a step fails, later ops change nothing: the loop has thrown. */
  lemma {:induction false} FoldErr<S>(step: (S, Op) -> Result<S>, init: S, ops: seq<Op>, more: seq<Op>)
    requires Fold(step, init, ops).Err?
    ensures Fold(step, init, ops + more) == Fold(step, init, ops)
    decreases |more|
  {
    if more == [] {
      assert ops + more == ops;
    } else {
      var front := more[..|more| - 1];
      FoldErr(step, init, ops, front);
      assert ops + more == (ops + front) + [more[|more| - 1]];
      FoldSnoc(step, init, ops + front, more[|more| - 1]);
    }
  }

  /** The loop's own bookkeeping, shared by every for-of loop of the model:
      the ops handled so far are a prefix of the visible ones. */
  lemma {:induction false} ForOfStep<S>(step: (S, Op) -> Result<S>, init: S, st: Stream,
                                        done: seq<Op>, op: Op, rest: seq<Op>)
    requires st.ops == done + [op] + rest && (st.fault ==> rest != [])
    requires Fold(step, init, done + [op]).Err?
    ensures ForOf(step, init, st) == Fold(step, init, done + [op])
  {
    var v := Visible(st);
    if st.fault {
      assert v == (done + [op]) + rest[..|rest| - 1];
    } else {
      assert v == (done + [op]) + rest;
    }
    FoldErr(step, init, done + [op], v[|done| + 1..]);
  }

  /** The loop ends cleanly when the iterator runs dry, and with the error
      token when `next()` meets it after the last visible op. */
  lemma {:induction false} ForOfEnd<S>(step: (S, Op) -> Result<S>, init: S, st: Stream, done: seq<Op>)
    requires Fold(step, init, done).Ok?
    requires done == Visible(st)
    ensures ForOf(step, init, st) == if st.fault then Err(ErrorOpcode) else Fold(step, init, done)
  {
  }

  /** `next()` throws inside the loop only when it prefetches the error
      token after the last visible op: the loop then ends with that error. */
  lemma {:induction false} ForOfThrows<S>(step: (S, Op) -> Result<S>, init: S, st: Stream,
                                          done: seq<Op>, rest: Stream)
    requires st.ops == done + rest.ops && st.fault == rest.fault
    requires rest.ops != [] && StreamNext(rest).Err?
    requires Fold(step, init, done).Ok?
    ensures StreamNext(rest).error == ErrorOpcode && ForOf(step, init, st) == Err(ErrorOpcode)
  {
    assert st.ops[..|done|] == done;
  }

  /** Op strings written by the encoder are iterated back to the same ops. */
  /** Taking one op off the front of what is left moves it to the end of
      what has been read. */
  lemma {:induction false} StreamAdvance(st: Stream, done: seq<Op>, before: Stream, o: Op, after: Stream)
    requires st.ops == done + before.ops && st.fault == before.fault && AllParsed(before.ops)
    requires StreamNext(before) == Ok((o, after))
    ensures st.ops == (done + [o]) + after.ops && st.fault == after.fault
    ensures Parsed(o) && AllParsed(after.ops)
  {
    assert before.ops == [o] + after.ops;
    AppendAssoc(done, [o], after.ops);
    AllParsedCons(before.ops);
    assert before.ops[1..] == after.ops;
  }

  lemma {:induction false} AllOpsRoundTrip(ops: seq<Op>)
    requires AllParsed(ops)
    ensures AllOps(OpsToString(ops)) == Ok(ops)
  {
    AllParsedNoNulls(ops);
    ParseOpsRoundTrip(ops);
  }

  lemma {:induction false} AllParsedNoNulls(ops: seq<Op>)
    requires AllParsed(ops)
    ensures NoNulls(ops)
  {
    forall i | 0 <= i < |ops| ensures ops[i].opcode != Null {
      assert Parsed(ops[i]);
    }
  }
}
