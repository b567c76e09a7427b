/** `applyZip` (Changeset.js lines 989-1003): two op strings read in
    lock-step, one op of each at a time, by a callback that consumes them
    and says what to write.  The callbacks of the source are closures over
    cursors and counters; here a callback is a function of an explicit
    state, which it returns updated with the two ops and the op written. */
module Zips {
  import opened Results
  import opened Ops
  import opened OpIters
  import opened Assemblers
  import opened Base36

  /** What one call of a callback leaves: the new state, what is left of
      the two ops (a consumed op is null) and the op to write (null for
      none). */
  datatype Zipped<S> = Zipped(state: S, op1: Op, op2: Op, out: Op)

  /** `func(op1, op2)`, which may throw. */
  type ZipFn<!S> = (S, Op, Op) -> Result<Zipped<S>>

  /** 1 for an op still in use, 0 for a null one. */
  function Live(op: Op): nat {
    if op.opcode == Null then 0 else 1
  }

  /** What the loop needs of its callback: each call that returns consumes
      one of the ops it was given, so fewer are left in use. */
  ghost predicate Progresses<S(!new)>(f: ZipFn<S>) {
    forall s: S, a: Op, b: Op {:trigger f(s, a, b)} ::
      Live(a) + Live(b) > 0 && f(s, a, b).Ok? ==>
        Live(f(s, a, b).value.op1) + Live(f(s, a, b).value.op2) < Live(a) + Live(b)
  }

  /** `if (!op.opcode && iter.hasNext()) op = iter.next();`: a null op is
      replaced by the next one of the stream, if any. */
  function Fetch(op: Op, st: Stream): (r: Result<(Op, Stream)>)
    requires AllParsed(st.ops)
    ensures r.Err? <==> op.opcode == Null && |st.ops| == 1 && st.fault
    ensures r.Err? ==> r.error == ErrorOpcode
    ensures r.Ok? ==> AllParsed(r.value.1.ops) && r.value.1.fault == st.fault
    ensures r.Ok? ==> (Live(r.value.0) == 1 <==> op.opcode != Null || st.ops != [])
    ensures r.Ok? && op.opcode == Null && st.ops != [] ==>
              [r.value.0] + r.value.1.ops == st.ops
    ensures r.Ok? && !(op.opcode == Null && st.ops != []) ==> r.value == (op, st)
  {
    if op.opcode == Null && st.ops != [] then
      var r := StreamNext(st);
      if r.Ok? then
        assert st.ops[1..] == r.value.1.ops;
        r
      else r
    else Ok((op, st))
  }

  /** The ops still to come are ahead of the ones already written. */
  function Prefixed<S>(outs: seq<Op>, r: Result<(S, seq<Op>)>): Result<(S, seq<Op>)> {
    if r.Err? then r else Ok((r.value.0, outs + r.value.1))
  }

  /** A written op, or nothing for a null one
      (`if (opOut && opOut.opcode) assem.append(opOut)`). */
  function Emit(out: Op): seq<Op> {
    if out.opcode == Null then [] else [out]
  }

  /** The loop of `applyZip` from the given ops and streams on: the final
      state and the ops written, or what the first failing fetch or call
      throws. */
  function ZipFrom<S(!new)>(f: ZipFn<S>, s: S, op1: Op, op2: Op, st1: Stream, st2: Stream): (r: Result<(S, seq<Op>)>)
    requires Progresses(f) && AllParsed(st1.ops) && AllParsed(st2.ops)
    decreases 2 * |st1.ops| + 2 * |st2.ops| + Live(op1) + Live(op2)
  {
    if op1.opcode == Null && st1.ops == [] && op2.opcode == Null && st2.ops == [] then Ok((s, []))
    else
      var x1 :- Fetch(op1, st1);
      var x2 :- Fetch(op2, st2);
      var z :- f(s, x1.0, x2.0);
      Prefixed(Emit(z.out), ZipFrom(f, z.state, z.op1, z.op2, x1.1, x2.1))
  }

  /** What the smart assembler makes of the written ops. */
  function ZipText(outs: seq<Op>): (t: string)
    ensures var st := SmartFlushed(SmartEnd(SmartFrom(SmartInit, outs)));
            SmartWF(st) && t == OpsToString(st.emitted)
  {
    SmartText(SmartEnd(SmartFrom(SmartInit, outs)))
  }

  /** The zipped ops can go between a changeset header and its `$`. */
  lemma {:induction false} ZipTextPackable(outs: seq<Op>)
    ensures Lacks(ZipText(outs), '$')
    ensures ZipText(outs) == [] || !IsDigit(ZipText(outs)[0])
  {
    var st := SmartFlushed(SmartEnd(SmartFrom(SmartInit, outs)));
    OpsToStringNoDollar(st.emitted);
    OpsToStringHead(st.emitted);
  }

  /** `applyZip(in1, in2, func)`: both iterators are opened (each throws on
      a leading `?`), the loop runs until both ops are used up and both
      streams are empty, and the written ops go through a smart assembler. */
  function ApplyZipSpec<S(!new)>(f: ZipFn<S>, s: S, in1: string, in2: string): (r: Result<(S, string)>)
    requires Progresses(f)
  {
    if OpenStream(ParseOps(in1)).Fail? then Err(ErrorOpcode)
    else if OpenStream(ParseOps(in2)).Fail? then Err(ErrorOpcode)
    else
      var z :- ZipFrom(f, s, NewOp(Null), NewOp(Null), ParseOps(in1), ParseOps(in2));
      Ok((z.0, ZipText(z.1)))
  }

  /** Every op the loop writes is one the callback returned as not null,
      and what it writes goes out free of `$`, as `pack` needs. */
  lemma {:induction false} ZipFromNoNulls<S(!new)>(f: ZipFn<S>, s: S, op1: Op, op2: Op, st1: Stream, st2: Stream)
    requires Progresses(f) && AllParsed(st1.ops) && AllParsed(st2.ops)
    requires ZipFrom(f, s, op1, op2, st1, st2).Ok?
    ensures NoNulls(ZipFrom(f, s, op1, op2, st1, st2).value.1)
    decreases 2 * |st1.ops| + 2 * |st2.ops| + Live(op1) + Live(op2)
  {
    if !(op1.opcode == Null && st1.ops == [] && op2.opcode == Null && st2.ops == []) {
      var x1 := Fetch(op1, st1).value;
      var x2 := Fetch(op2, st2).value;
      var z := f(s, x1.0, x2.0).value;
      ZipFromNoNulls(f, z.state, z.op1, z.op2, x1.1, x2.1);
    }
  }

  lemma {:induction false} PrefixedNothing<S>(r: Result<(S, seq<Op>)>)
    ensures Prefixed([], r) == r
  {
    if r.Ok? {
      assert [] + r.value.1 == r.value.1;
    }
  }

  lemma PrefixedErr<S>(outs: seq<Op>, r: Result<(S, seq<Op>)>)
    ensures r.Err? ==> Prefixed(outs, r) == r
  {
  }

  lemma PrefixedOk<S>(outs: seq<Op>, s: S, tail: seq<Op>)
    ensures Prefixed(outs, Ok((s, tail))) == Ok((s, outs + tail))
  {
  }

  lemma {:induction false} PrefixedAssoc<S>(outs: seq<Op>, more: seq<Op>, r: Result<(S, seq<Op>)>)
    ensures Prefixed(outs, Prefixed(more, r)) == Prefixed(outs + more, r)
  {
    if r.Ok? {
      AppendAssoc(outs, more, r.value.1);
    }
  }

  /** One turn of the loop, or its end. */
  // ------------------------------------------------------------ counters kept by a callback

  /** The sum of a weight over a sequence of ops. */
  function SumOf(w: Op -> int, ops: seq<Op>): int {
    if ops == [] then 0 else w(ops[0]) + SumOf(w, ops[1..])
  }

  /** A callback that keeps a counter: after each call the counter `g` of
      the state has grown by the weight of the op written. */
  ghost predicate Counts<S(!new)>(f: ZipFn<S>, g: S -> int, w: Op -> int) {
    forall s: S, a: Op, b: Op {:trigger f(s, a, b)} ::
      f(s, a, b).Ok? ==> g(f(s, a, b).value.state) == g(s) + SumOf(w, Emit(f(s, a, b).value.out))
  }

  lemma {:induction false} SumOfPrefix(w: Op -> int, out: Op, rest: seq<Op>)
    ensures SumOf(w, Emit(out) + rest) == SumOf(w, Emit(out)) + SumOf(w, rest)
  {
    if out.opcode == Null {
      assert Emit(out) + rest == rest;
    } else {
      assert (Emit(out) + rest)[1..] == rest;
      assert SumOf(w, Emit(out)) == w(out) + SumOf(w, []);
    }
  }

  /** Over a whole zip, a counter kept by the callback grows by the total
      weight of the ops written. */
  lemma {:induction false} ZipFromCounts<S(!new)>(f: ZipFn<S>, g: S -> int, w: Op -> int,
                                                  s: S, op1: Op, op2: Op, st1: Stream, st2: Stream)
    requires Progresses(f) && Counts(f, g, w) && AllParsed(st1.ops) && AllParsed(st2.ops)
    requires ZipFrom(f, s, op1, op2, st1, st2).Ok?
    ensures var z := ZipFrom(f, s, op1, op2, st1, st2).value;
            g(z.0) == g(s) + SumOf(w, z.1)
    decreases 2 * |st1.ops| + 2 * |st2.ops| + Live(op1) + Live(op2)
  {
    ZipFromCases(f, s, op1, op2, st1, st2);
    if !(op1.opcode == Null && st1.ops == [] && op2.opcode == Null && st2.ops == []) {
      var x1 := Fetch(op1, st1).value;
      var x2 := Fetch(op2, st2).value;
      var z := f(s, x1.0, x2.0).value;
      ProgressAt(f, s, x1.0, x2.0);
      ZipFromCounts(f, g, w, z.state, z.op1, z.op2, x1.1, x2.1);
      SumOfPrefix(w, z.out, ZipFrom(f, z.state, z.op1, z.op2, x1.1, x2.1).value.1);
    }
  }

  /** What `applyZip` returns is the state and the assembled text of a zip
      over the two parsed streams. */
  lemma {:induction false} ApplyZipSpecRun<S(!new)>(f: ZipFn<S>, s: S, in1: string, in2: string)
    requires Progresses(f) && ApplyZipSpec(f, s, in1, in2).Ok?
    ensures var z := ZipFrom(f, s, NewOp(Null), NewOp(Null), ParseOps(in1), ParseOps(in2));
            z.Ok? && ApplyZipSpec(f, s, in1, in2).value == (z.value.0, ZipText(z.value.1))
  {
    ApplyZipSpecCases(f, s, in1, in2);
  }

  lemma {:induction false} ZipFromCases<S(!new)>(f: ZipFn<S>, s: S, op1: Op, op2: Op, st1: Stream, st2: Stream)
    requires Progresses(f) && AllParsed(st1.ops) && AllParsed(st2.ops)
    ensures op1.opcode == Null && st1.ops == [] && op2.opcode == Null && st2.ops == [] ==>
              ZipFrom(f, s, op1, op2, st1, st2) == Ok((s, []))
    ensures !(op1.opcode == Null && st1.ops == [] && op2.opcode == Null && st2.ops == []) ==>
              var r := ZipFrom(f, s, op1, op2, st1, st2);
              match Fetch(op1, st1)
              case Err(e) => r == Err(e)
              case Ok(x1) =>
                match Fetch(op2, st2)
                case Err(e) => r == Err(e)
                case Ok(x2) =>
                  match f(s, x1.0, x2.0)
                  case Err(e) => r == Err(e)
                  case Ok(z) => r == Prefixed(Emit(z.out), ZipFrom(f, z.state, z.op1, z.op2, x1.1, x2.1))
  {
  }

  /** A call that returns uses up one of its live ops. */
  lemma {:induction false} ProgressAt<S(!new)>(f: ZipFn<S>, s: S, a: Op, b: Op)
    requires Progresses(f) && Live(a) + Live(b) > 0 && f(s, a, b).Ok?
    ensures Live(f(s, a, b).value.op1) + Live(f(s, a, b).value.op2) < Live(a) + Live(b)
  {
  }

  /** The text `applyZip` returns can be packed as the ops part of a changeset. */
  lemma ApplyZipPackable<S(!new)>(f: ZipFn<S>, s: S, in1: string, in2: string)
    requires Progresses(f)
    ensures var r := ApplyZipSpec(f, s, in1, in2);
            r.Ok? ==> Lacks(r.value.1, '$') && (r.value.1 == [] || !IsDigit(r.value.1[0]))
  {
    var r := ApplyZipSpec(f, s, in1, in2);
    if r.Ok? {
      var z := ZipFrom(f, s, NewOp(Null), NewOp(Null), ParseOps(in1), ParseOps(in2)).value;
      ZipTextPackable(z.1);
    }
  }

  lemma {:induction false} ApplyZipSpecCases<S(!new)>(f: ZipFn<S>, s: S, in1: string, in2: string)
    requires Progresses(f)
    ensures OpenStream(ParseOps(in1)).Fail? ==> ApplyZipSpec(f, s, in1, in2) == Err(ErrorOpcode)
    ensures OpenStream(ParseOps(in1)).Pass? && OpenStream(ParseOps(in2)).Fail? ==>
              ApplyZipSpec(f, s, in1, in2) == Err(ErrorOpcode)
    ensures OpenStream(ParseOps(in1)).Pass? && OpenStream(ParseOps(in2)).Pass? ==>
              match ZipFrom(f, s, NewOp(Null), NewOp(Null), ParseOps(in1), ParseOps(in2))
              case Err(e) => ApplyZipSpec(f, s, in1, in2) == Err(e)
              case Ok(z) => ApplyZipSpec(f, s, in1, in2) == Ok((z.0, ZipText(z.1)))
  {
  }

  /** `if (!op.opcode && iter.hasNext()) op = iter.next();` on an iterator. */
  method FetchOp(op: Op, it: OpIter) returns (r: Result<Op>)
    requires it.Valid() && AllParsed(it.rest.ops)
    modifies it
    ensures var want := Fetch(op, old(it.rest));
            (r.Err? <==> want.Err?) && (r.Err? ==> r.error == want.error)
            && (r.Ok? ==> it.Valid() && r.value == want.value.0 && it.rest == want.value.1)
  {
    if op.opcode == Null && it.HasNext() {
      r := it.Next();
    } else {
      r := Ok(op);
    }
  }

  /** One successful turn of the zip: what was left before is the emitted op followed by what is left now,
      and the termination measure went down. */
  ghost predicate Turned<S(!new)>(f: ZipFn<S>, s: S, op1: Op, op2: Op, st1: Stream, st2: Stream,
                                  z: Zipped<S>, rest1: Stream, rest2: Stream)
  {
    && Progresses(f)
    && AllParsed(st1.ops) && AllParsed(st2.ops) && AllParsed(rest1.ops) && AllParsed(rest2.ops)
    && ZipFrom(f, s, op1, op2, st1, st2) == Prefixed(Emit(z.out), ZipFrom(f, z.state, z.op1, z.op2, rest1, rest2))
    && 2 * |rest1.ops| + 2 * |rest2.ops| + Live(z.op1) + Live(z.op2) < 2 * |st1.ops| + 2 * |st2.ops| + Live(op1) + Live(op2)
  }

  lemma TurnedIntro<S(!new)>(f: ZipFn<S>, s: S, op1: Op, op2: Op, st1: Stream, st2: Stream,
                             z: Zipped<S>, rest1: Stream, rest2: Stream)
    requires Progresses(f)
    requires AllParsed(st1.ops) && AllParsed(st2.ops) && AllParsed(rest1.ops) && AllParsed(rest2.ops)
    requires ZipFrom(f, s, op1, op2, st1, st2) == Prefixed(Emit(z.out), ZipFrom(f, z.state, z.op1, z.op2, rest1, rest2))
    requires 2 * |rest1.ops| + 2 * |rest2.ops| + Live(z.op1) + Live(z.op2) < 2 * |st1.ops| + 2 * |st2.ops| + Live(op1) + Live(op2)
    ensures Turned(f, s, op1, op2, st1, st2, z, rest1, rest2)
  {
  }

  lemma TurnedElim<S(!new)>(f: ZipFn<S>, s: S, op1: Op, op2: Op, st1: Stream, st2: Stream,
                            z: Zipped<S>, rest1: Stream, rest2: Stream)
    requires Turned(f, s, op1, op2, st1, st2, z, rest1, rest2)
    ensures Progresses(f) && AllParsed(rest1.ops) && AllParsed(rest2.ops)
    ensures ZipFrom(f, s, op1, op2, st1, st2) == Prefixed(Emit(z.out), ZipFrom(f, z.state, z.op1, z.op2, rest1, rest2))
    ensures 2 * |rest1.ops| + 2 * |rest2.ops| + Live(z.op1) + Live(z.op2) < 2 * |st1.ops| + 2 * |st2.ops| + Live(op1) + Live(op2)
  {
  }

  /** One turn of the loop of `applyZip`: fetch, call, write. */
  method ZipTurn<S(!new)>(f: ZipFn<S>, s: S, op1: Op, op2: Op, iter1: OpIter, iter2: OpIter) returns (r: Result<Zipped<S>>)
    requires Progresses(f) && iter1.Valid() && iter2.Valid() && iter1 != iter2
    requires AllParsed(iter1.rest.ops) && AllParsed(iter2.rest.ops)
    requires !(op1.opcode == Null && iter1.rest.ops == [] && op2.opcode == Null && iter2.rest.ops == [])
    modifies iter1, iter2
    ensures r.Err? ==> ZipFrom(f, s, op1, op2, old(iter1.rest), old(iter2.rest)) == Err(r.error)
    ensures r.Ok? ==>
              && iter1.Valid() && iter2.Valid()
              && Turned(f, s, op1, op2, old(iter1.rest), old(iter2.rest), r.value, iter1.rest, iter2.rest)
  {
    ghost var st1, st2 := iter1.rest, iter2.rest;
    hide *;
    var x1 := FetchOp(op1, iter1);
    if x1.Err? {
      assert ZipFrom(f, s, op1, op2, st1, st2) == Err(x1.error) by {
        ZipFromCases(f, s, op1, op2, st1, st2);
      }
      return Err(x1.error);
    }
    ghost var rest1 := iter1.rest;
    var x2 := FetchOp(op2, iter2);
    if x2.Err? {
      assert ZipFrom(f, s, op1, op2, st1, st2) == Err(x2.error) by {
        ZipFromCases(f, s, op1, op2, st1, st2);
      }
      return Err(x2.error);
    }
    var z := f(s, x1.value, x2.value);
    if z.Err? {
      assert ZipFrom(f, s, op1, op2, st1, st2) == Err(z.error) by {
        ZipFromCases(f, s, op1, op2, st1, st2);
      }
      return Err(z.error);
    }
    assert Turned(f, s, op1, op2, st1, st2, z.value, rest1, iter2.rest) by {
      ZipFromCases(f, s, op1, op2, st1, st2);
      ProgressAt(f, s, x1.value, x2.value);
      TurnedIntro(f, s, op1, op2, st1, st2, z.value, rest1, iter2.rest);
    }
    return z;
  }

  /** Hands a callback's output op to the assembler; a null op is dropped. */
  method EmitOut(assem: SmartOpAssembler, out: Op, ghost outs: seq<Op>)
    requires assem.Valid() && assem.State() == SmartFrom(SmartInit, outs)
    modifies assem, assem.Repr
    ensures assem.Valid() && assem.State() == SmartFrom(SmartInit, outs + Emit(out))
  {
    if out.opcode != Null {
      assem.Append(out);
      SmartFromSnoc(SmartInit, outs, out);
    } else {
      assert outs + Emit(out) == outs;
    }
  }

  /** The main loop of `applyZip`: runs the callback over both streams until both are exhausted,
      handing every output op to `assem`. */
  method RunZip<S(!new)>(f: ZipFn<S>, s0: S, iter1: OpIter, iter2: OpIter, assem: SmartOpAssembler)
    returns (r: Result<S>, ghost outs: seq<Op>)
    requires Progresses(f) && iter1.Valid() && iter2.Valid() && iter1 != iter2 && assem.Valid()
    requires iter1 !in assem.Repr && iter2 !in assem.Repr
    requires AllParsed(iter1.rest.ops) && AllParsed(iter2.rest.ops)
    requires assem.State() == SmartInit
    modifies iter1, iter2, assem, assem.Repr
    ensures var whole := ZipFrom(f, s0, NewOp(Null), NewOp(Null), old(iter1.rest), old(iter2.rest));
            && (r.Err? ==> whole == Err(r.error))
            && (r.Ok? ==> whole == Ok((r.value, outs)) && assem.Valid() && assem.State() == SmartFrom(SmartInit, outs))
  {
    var op1, op2, s := NewOp(Null), NewOp(Null), s0;
    ghost var whole := ZipFrom(f, s0, op1, op2, iter1.rest, iter2.rest);
    outs := [];
    PrefixedNothing(whole);
    assert SmartFrom(SmartInit, []) == SmartInit;
    hide *;
    while op1.opcode != Null || iter1.HasNext() || op2.opcode != Null || iter2.HasNext()
      invariant iter1.Valid() && iter2.Valid() && iter1 != iter2 && assem.Valid()
      invariant iter1 !in assem.Repr && iter2 !in assem.Repr
      invariant AllParsed(iter1.rest.ops) && AllParsed(iter2.rest.ops)
      invariant assem.State() == SmartFrom(SmartInit, outs)
      invariant whole == Prefixed(outs, ZipFrom(f, s, op1, op2, iter1.rest, iter2.rest))
      decreases 2 * |iter1.rest.ops| + 2 * |iter2.rest.ops| + Live(op1) + Live(op2)
    {
      ghost var before1, before2 := iter1.rest, iter2.rest;
      var z := ZipTurn(f, s, op1, op2, iter1, iter2);
      if z.Err? {
        assert whole == Err(z.error) by {
          PrefixedErr(outs, ZipFrom(f, s, op1, op2, before1, before2));
        }
        return Err(z.error), outs;
      }
      EmitOut(assem, z.value.out, outs);
      TurnedElim(f, s, op1, op2, before1, before2, z.value, iter1.rest, iter2.rest);
      PrefixedAssoc(outs, Emit(z.value.out), ZipFrom(f, z.value.state, z.value.op1, z.value.op2, iter1.rest, iter2.rest));
      outs := outs + Emit(z.value.out);
      s, op1, op2 := z.value.state, z.value.op1, z.value.op2;
    }
    assert ZipFrom(f, s, op1, op2, iter1.rest, iter2.rest) == Ok((s, [])) by {
      ZipFromCases(f, s, op1, op2, iter1.rest, iter2.rest);
    }
    assert whole == Ok((s, outs)) by {
      PrefixedOk(outs, s, []);
      assert outs + [] == outs;
    }
    return Ok(s), outs;
  }

  /** `applyZip(in1, in2, func)`. */
  method ApplyZip<S(!new)>(f: ZipFn<S>, s0: S, in1: string, in2: string) returns (r: Result<(S, string)>)
    requires Progresses(f)
    ensures r == ApplyZipSpec(f, s0, in1, in2)
  {
    ApplyZipSpecCases(f, s0, in1, in2);
    var open1 := OpIter.Open(in1);
    if open1.Err? {
      return Err(open1.error);
    }
    var open2 := OpIter.Open(in2);
    if open2.Err? {
      return Err(open2.error);
    }
    var iter1, iter2 := open1.value, open2.value;
    var assem := new SmartOpAssembler();
    var z, outs := RunZip(f, s0, iter1, iter2, assem);
    if z.Err? {
      return Err(z.error);
    }
    assem.EndDocument();
    var text := assem.ToString();
    return Ok((z.value, text));
  }
}
