/** The three op assemblers of Changeset.js (lines 318-501).  Each is a
    class whose fields the methods update; the state each one reaches is
    also given as a function of the ops appended, and the properties the
    source promises are proved about those functions. */
module Assemblers {
  import opened Results
  import opened Ops
  import opened Pools
  import opened Attributes
  import opened Texts

  /** `pieces.join('')`. */
  function Join(pieces: seq<string>): string {
    if pieces == [] then "" else Join(pieces[..|pieces| - 1]) + pieces[|pieces| - 1]
  }

  /** `OpAssembler` (lines 318-338): serialises each op as it arrives. */
  class OpAssembler {
    var pieces: seq<string>
    /** The ops appended since the last `clear()`. */
    ghost var ops: seq<Op>

    ghost predicate Valid()
      reads this
    {
      NoNulls(ops) && Join(pieces) == OpsToString(ops)
    }

    constructor ()
      ensures Valid() && ops == []
    {
      pieces := [];
      ops := [];
    }

    /** `append(op)`: a null op has no text, so callers pass real ops. */
    method Append(op: Op)
      requires Valid() && op.opcode != Null
      modifies this
      ensures Valid() && ops == old(ops) + [op]
    {
      OpsToStringAppend(ops, [op]);
      assert OpsToString([op]) == OpToString(op) + OpsToString([]);
      assert (pieces + [OpToString(op)])[..|pieces|] == pieces;
      pieces := pieces + [OpToString(op)];
      ops := ops + [op];
    }

    method ToString() returns (s: string)
      requires Valid()
      ensures s == OpsToString(ops)
    {
      s := Join(pieces);
    }

    method Clear()
      modifies this
      ensures Valid() && ops == []
    {
      pieces := [];
      ops := [];
    }
  }

  /** `stringAssembler()` (lines 635-655): a list of pieces joined on
      demand.  It has no `clear`. */
  class StringAssembler {
    var pieces: seq<string>

    constructor ()
      ensures pieces == []
    {
      pieces := [];
    }

    method Append(x: string)
      modifies this
      ensures pieces == old(pieces) + [x]
    {
      pieces := pieces + [x];
    }

    /** `toString()`: the pieces in the order they were appended. */
    method ToString() returns (s: string)
      ensures s == Join(pieces)
    {
      s := Join(pieces);
    }
  }

  /** Joining a list of pieces with one more. */
  lemma {:induction false} JoinSnoc(pieces: seq<string>, x: string)
    ensures Join(pieces + [x]) == Join(pieces) + x
  {
    assert (pieces + [x])[..|pieces|] == pieces;
  }

  // ---------------------------------------------------------------- merging

  /** What a `MergingOpAssembler` holds: the ops already written, the op
      being grown (`_bufOp`, null when there is none) and the in-line
      characters that followed its last newline
      (`_bufOpAdditionalCharsAfterNewline`). */
  datatype MergeState = MergeState(out: seq<Op>, buf: Op, extra: int)

  const MergeInit := MergeState([], NewOp(Null), 0)

  /** `_flush(isEndDocument)`, as intended: writes the buffered op, then
      the in-line tail as an op of its own; at the end of the document a
      plain keep is left implicit, tail included, and the tail count is
      reset (the source leaves it set there: see `MergeFlushAsWritten`). */
  function MergeFlush(st: MergeState, isEnd: bool): (r: MergeState)
    ensures r.buf.opcode == Null && r.extra == (if st.buf.opcode == Null then st.extra else 0)
    ensures st.buf.opcode == Null ==> r == st
    ensures NoNulls(st.out) ==> NoNulls(r.out)
  {
    if st.buf.opcode == Null then st
    else if isEnd && st.buf.opcode == Keep && st.buf.attribs == [] then
      MergeState(st.out, st.buf.(opcode := Null), 0)
    else if st.extra != 0 then
      var tail := st.buf.(chars := st.extra, lines := 0);
      MergeState(st.out + [st.buf, tail], tail.(opcode := Null), 0)
    else
      MergeState(st.out + [st.buf], st.buf.(opcode := Null), 0)
  }

  /** `append(op)`: ops of no length are ignored; an op like the buffered
      one is merged into it, and any other op flushes the buffer and takes
      its place. */
  function MergeAppend(st: MergeState, op: Op): (r: MergeState)
    ensures op.chars <= 0 ==> r == st
    ensures NoNulls(st.out) ==> NoNulls(r.out)
  {
    if op.chars <= 0 then st
    else if st.buf.opcode == op.opcode && st.buf.attribs == op.attribs then
      if op.lines > 0 then
        st.(buf := st.buf.(chars := st.buf.chars + st.extra + op.chars, lines := st.buf.lines + op.lines), extra := 0)
      else if st.buf.lines == 0 then
        st.(buf := st.buf.(chars := st.buf.chars + op.chars))
      else
        st.(extra := st.extra + op.chars)
    else
      MergeFlush(st, false).(buf := op)
  }

  /** `clear()`, as intended: forgets everything, the in-line tail count
      included (the source leaves it set: see `MergeClearAsWritten`). */
  function MergeClear(st: MergeState): (r: MergeState)
    ensures r.out == [] && r.buf.opcode == Null && r.extra == 0
  {
    MergeState([], NewOp(Null), 0)
  }

  /** The ops `toString()` writes: everything, the buffer flushed. */
  function MergeOutput(st: MergeState): (r: seq<Op>)
    ensures NoNulls(st.out) ==> NoNulls(r)
  {
    MergeFlush(st, false).out
  }

  /** The state after appending `ops` in order. */
  function MergeFrom(st: MergeState, ops: seq<Op>): (r: MergeState)
    ensures NoNulls(st.out) ==> NoNulls(r.out)
  {
    if ops == [] then st else MergeAppend(MergeFrom(st, ops[..|ops| - 1]), ops[|ops| - 1])
  }

  /** Total characters and newlines of a list of ops. */
  function Chars(ops: seq<Op>): int {
    if ops == [] then 0 else Chars(ops[..|ops| - 1]) + ops[|ops| - 1].chars
  }

  function Lines(ops: seq<Op>): int {
    if ops == [] then 0 else Lines(ops[..|ops| - 1]) + ops[|ops| - 1].lines
  }

  /** The ops an assembler does not ignore. */
  function Positive(ops: seq<Op>): seq<Op> {
    if ops == [] then []
    else
      var front := Positive(ops[..|ops| - 1]);
      if ops[|ops| - 1].chars > 0 then front + [ops[|ops| - 1]] else front
  }

  lemma {:induction false} CharsLinesAppend(ops: seq<Op>, more: seq<Op>)
    ensures Chars(ops + more) == Chars(ops) + Chars(more)
    ensures Lines(ops + more) == Lines(ops) + Lines(more)
    decreases |more|
  {
    if more == [] {
      assert ops + more == ops;
    } else {
      CharsLinesAppend(ops, more[..|more| - 1]);
      assert (ops + more)[..|ops + more| - 1] == ops + more[..|more| - 1];
    }
  }

  lemma {:induction false} CharsPair(a: Op, b: Op)
    ensures Chars([a, b]) == a.chars + b.chars && Lines([a, b]) == a.lines + b.lines
  {
    assert [a][..0] == [];
    assert Chars([a]) == a.chars && Lines([a]) == a.lines;
    assert [a, b][..1] == [a];
    assert Chars([a, b]) == Chars([a]) + b.chars;
    assert Lines([a, b]) == Lines([a]) + b.lines;
  }

  /** The in-line tail is only ever kept beside a buffered multi-line op. */
  predicate MergeInv(st: MergeState) {
    st.extra >= 0 && (st.extra != 0 ==> st.buf.opcode != Null && st.buf.lines != 0)
  }

  /** The characters and newlines appended so far, written or pending. */
  function PendingChars(st: MergeState): int {
    Chars(st.out) + (if st.buf.opcode == Null then 0 else st.buf.chars) + st.extra
  }

  function PendingLines(st: MergeState): int {
    Lines(st.out) + (if st.buf.opcode == Null then 0 else st.buf.lines)
  }

  lemma {:induction false} MergeFlushTotals(st: MergeState)
    requires MergeInv(st)
    ensures MergeInv(MergeFlush(st, false))
    ensures PendingChars(MergeFlush(st, false)) == PendingChars(st)
    ensures PendingLines(MergeFlush(st, false)) == PendingLines(st)
  {
    var r := MergeFlush(st, false);
    if st.buf.opcode != Null {
      if st.extra != 0 {
        var tail := st.buf.(chars := st.extra, lines := 0);
        CharsLinesAppend(st.out, [st.buf, tail]);
        CharsPair(st.buf, tail);
      } else {
        CharsLinesAppend(st.out, [st.buf]);
        assert [st.buf][..0] == [];
      }
    }
  }

  /** Appending a real op keeps the invariant and adds its characters and
      newlines to the total: merging loses nothing. */
  lemma {:induction false} MergeAppendTotals(st: MergeState, op: Op)
    requires MergeInv(st) && op.opcode != Null && op.lines >= 0
    ensures MergeInv(MergeAppend(st, op))
    ensures PendingChars(MergeAppend(st, op)) == PendingChars(st) + (if op.chars <= 0 then 0 else op.chars)
    ensures PendingLines(MergeAppend(st, op)) == PendingLines(st) + (if op.chars <= 0 then 0 else op.lines)
  {
    if op.chars > 0 && !(st.buf.opcode == op.opcode && st.buf.attribs == op.attribs) {
      MergeFlushTotals(st);
    }
  }

  /** Whatever is appended to a fresh merging assembler comes out with the
      same total of characters and of newlines, ignored ops aside. */
  lemma {:induction false} MergeRunTotals(ops: seq<Op>)
    requires AllParsed(ops)
    ensures MergeInv(MergeFrom(MergeInit, ops))
    ensures Chars(MergeOutput(MergeFrom(MergeInit, ops))) == Chars(Positive(ops))
    ensures Lines(MergeOutput(MergeFrom(MergeInit, ops))) == Lines(Positive(ops))
  {
    MergeFromPending(MergeInit, ops);
    MergeFlushTotals(MergeFrom(MergeInit, ops));
  }

  lemma {:induction false} MergeFromPending(st: MergeState, ops: seq<Op>)
    requires MergeInv(st) && AllParsed(ops)
    ensures MergeInv(MergeFrom(st, ops))
    ensures PendingChars(MergeFrom(st, ops)) == PendingChars(st) + Chars(Positive(ops))
    ensures PendingLines(MergeFrom(st, ops)) == PendingLines(st) + Lines(Positive(ops))
  {
    if ops != [] {
      var front := ops[..|ops| - 1];
      var op := ops[|ops| - 1];
      assert AllParsed(front) && Parsed(op);
      MergeFromPending(st, front);
      var mid := MergeFrom(st, front);
      assert MergeFrom(st, ops) == MergeAppend(mid, op);
      MergeAppendTotals(mid, op);
      var pf := Positive(front);
      if op.chars > 0 {
        assert Positive(ops) == pf + [op];
        CharsLinesAppend(pf, [op]);
        assert [op][..0] == [];
      } else {
        assert Positive(ops) == pf;
      }
    }
  }

  /** `endDocument()`: a final plain keep is dropped, any other buffered op
      is written as `toString()` would. */
  lemma {:induction false} MergeEndDocument(st: MergeState)
    ensures st.buf.opcode == Keep && st.buf.attribs == [] ==> MergeFlush(st, true).out == st.out
    ensures !(st.buf.opcode == Keep && st.buf.attribs == []) ==> MergeFlush(st, true) == MergeFlush(st, false)
  {
  }

  /** An op appended after a multi-line op of the same kind absorbs the
      in-line text that followed the last newline. */
  lemma {:induction false} MergeMultiLine(st: MergeState, op: Op)
    requires MergeInv(st) && op.chars > 0 && op.lines > 0
    requires st.buf.opcode == op.opcode && st.buf.attribs == op.attribs
    ensures MergeAppend(st, op).out == st.out
    ensures MergeAppend(st, op).buf.chars == st.buf.chars + st.extra + op.chars
    ensures MergeAppend(st, op).extra == 0
  {
  }

  /** Whatever follows `clear()` comes out with exactly its own characters
      and newlines: nothing of the forgotten ops survives. */
  lemma {:induction false} MergeClearSound(st: MergeState, ops: seq<Op>)
    requires AllParsed(ops)
    ensures Chars(MergeOutput(MergeFrom(MergeClear(st), ops))) == Chars(Positive(ops))
    ensures Lines(MergeOutput(MergeFrom(MergeClear(st), ops))) == Lines(Positive(ops))
  {
    assert MergeClear(st) == MergeInit;
    MergeRunTotals(ops);
  }

  /** The same after `endDocument()` has dropped a final plain keep. */
  lemma {:induction false} MergeEndSound(st: MergeState, ops: seq<Op>)
    requires MergeInv(st) && st.buf.opcode == Keep && st.buf.attribs == [] && AllParsed(ops)
    ensures Chars(MergeOutput(MergeFrom(MergeFlush(st, true), ops))) == Chars(st.out) + Chars(Positive(ops))
  {
    var e := MergeFlush(st, true);
    assert PendingChars(e) == Chars(st.out);
    MergeFromPending(e, ops);
    MergeFlushTotals(MergeFrom(e, ops));
  }

  // As written, `clear()` (lines 400-403) and the end-of-document branch of
  // `_flush` (lines 366-368) leave `_bufOpAdditionalCharsAfterNewline` set.

  function MergeClearAsWritten(st: MergeState): (r: MergeState)
    ensures r.out == [] && r.buf.opcode == Null && r.extra == st.extra
  {
    MergeState([], NewOp(Null), st.extra)
  }

  function MergeFlushAsWritten(st: MergeState, isEnd: bool): (r: MergeState)
    ensures r.buf.opcode == Null
    ensures isEnd && st.buf.opcode == Keep && st.buf.attribs == [] ==> r.out == st.out && r.extra == st.extra
  {
    if st.buf.opcode != Null && isEnd && st.buf.opcode == Keep && st.buf.attribs == [] then
      MergeState(st.out, st.buf.(opcode := Null), st.extra)
    else MergeFlush(st, isEnd)
  }

  /** `|1=2` then `=3` leave three in-line characters pending. */
  lemma {:induction false} PendingTail()
    ensures MergeFrom(MergeInit, [Op(Keep, 2, 1, []), Op(Keep, 3, 0, [])])
            == MergeState([], Op(Keep, 2, 1, []), 3)
  {
    var a, b := Op(Keep, 2, 1, []), Op(Keep, 3, 0, []);
    assert [a, b][..1] == [a];
    assert [a][..0] == [];
    assert MergeFrom(MergeInit, [a]) == MergeState([], a, 0);
  }

  /** As written, an assembler cleared while such a tail is pending writes
      it after the next op: `+1` comes out as `+1+3`. */
  lemma {:induction false} StaleTailAfterClear()
    ensures var st := MergeClearAsWritten(MergeFrom(MergeInit, [Op(Keep, 2, 1, []), Op(Keep, 3, 0, [])]));
            var out := MergeOutput(MergeFrom(st, [Op(Insert, 1, 0, [])]));
            out == [Op(Insert, 1, 0, []), Op(Insert, 3, 0, [])]
            && Chars(out) != Chars(Positive([Op(Insert, 1, 0, [])]))
  {
    PendingTail();
    var c := Op(Insert, 1, 0, []);
    var st := MergeState([], NewOp(Null), 3);
    assert [c][..0] == [];
    assert MergeFrom(st, [c]) == MergeState([], c, 3);
    CharsPair(c, c.(chars := 3));
    assert Positive([c]) == [c];
  }

  /** As written, the same happens after `endDocument()` drops the keep. */
  lemma {:induction false} StaleTailAfterEnd()
    ensures var st := MergeFlushAsWritten(MergeFrom(MergeInit, [Op(Keep, 2, 1, []), Op(Keep, 3, 0, [])]), true);
            MergeOutput(MergeFrom(st, [Op(Insert, 1, 0, [])])) == [Op(Insert, 1, 0, []), Op(Insert, 3, 0, [])]
  {
    PendingTail();
    var c := Op(Insert, 1, 0, []);
    var st := MergeState([], Op(Null, 2, 1, []), 3);
    assert [c][..0] == [];
    assert MergeFrom(st, [c]) == MergeState([], c, 3);
  }

  /** `MergingOpAssembler` (lines 344-404), with the tail count reset by
      `clear()` and by the end-of-document flush as intended; the source as
      written is `MergeClearAsWritten` and `MergeFlushAsWritten`. */
  class MergingOpAssembler {
    const assem: OpAssembler
    var bufOp: Op
    var extra: int

    ghost predicate Valid()
      reads this, assem
    {
      assem.Valid()
    }

    ghost function State(): MergeState
      reads this, assem
    {
      MergeState(assem.ops, bufOp, extra)
    }

    constructor ()
      ensures Valid() && State() == MergeInit && fresh(assem)
    {
      assem := new OpAssembler();
      bufOp := NewOp(Null);
      extra := 0;
    }

    method Flush(isEnd: bool)
      requires Valid()
      modifies this, assem
      ensures Valid() && State() == MergeFlush(old(State()), isEnd)
    {
      if bufOp.opcode == Null {
        return;
      }
      if isEnd && bufOp.opcode == Keep && bufOp.attribs == [] {
      } else {
        assem.Append(bufOp);
        if extra != 0 {
          ghost var b := bufOp;
          bufOp := bufOp.(chars := extra, lines := 0);
          assem.Append(bufOp);
          assert assem.ops == old(assem.ops) + [b, bufOp];
        }
      }
      extra := 0;
      bufOp := bufOp.(opcode := Null);
    }

    method Append(op: Op)
      requires Valid()
      modifies this, assem
      ensures Valid() && State() == MergeAppend(old(State()), op)
    {
      if op.chars <= 0 {
        return;
      }
      if bufOp.opcode == op.opcode && bufOp.attribs == op.attribs {
        if op.lines > 0 {
          bufOp := bufOp.(chars := bufOp.chars + extra + op.chars, lines := bufOp.lines + op.lines);
          extra := 0;
        } else if bufOp.lines == 0 {
          bufOp := bufOp.(chars := bufOp.chars + op.chars);
        } else {
          extra := extra + op.chars;
        }
      } else {
        Flush(false);
        bufOp := op;
      }
    }

    method EndDocument()
      requires Valid()
      modifies this, assem
      ensures Valid() && State() == MergeFlush(old(State()), true)
    {
      Flush(true);
    }

    method ToString() returns (s: string)
      requires Valid()
      modifies this, assem
      ensures Valid() && State() == MergeFlush(old(State()), false)
      ensures s == OpsToString(MergeOutput(old(State())))
    {
      Flush(false);
      s := assem.ToString();
    }

    method Clear()
      requires Valid()
      modifies this, assem
      ensures Valid() && State() == MergeClear(old(State()))
    {
      assem.Clear();
      bufOp := NewOp(Null);
      extra := 0;
    }
  }

  // ---------------------------------------------------------------- smart

  /** What a `SmartOpAssembler` holds: a merging assembler per opcode, the
      ops already written by `_assem`, the opcode of the last op taken and
      the length change. */
  datatype SmartState = SmartState(minus: MergeState, plus: MergeState, keep: MergeState,
                                   emitted: seq<Op>, last: OpCode, lengthChange: int)

  const SmartInit := SmartState(MergeInit, MergeInit, MergeInit, [], Null, 0)

  /** None of the lists of ops holds a null op. */
  predicate SmartWF(s: SmartState) {
    NoNulls(s.emitted) && NoNulls(s.minus.out) && NoNulls(s.plus.out) && NoNulls(s.keep.out)
  }

  /** `_flushKeeps()`: writes the pending keeps and clears their assembler. */
  function KeepsFlushed(s: SmartState): (r: SmartState)
    ensures SmartWF(s) ==> SmartWF(r)
  {
    s.(emitted := s.emitted + MergeOutput(s.keep), keep := MergeClear(MergeFlush(s.keep, false)))
  }

  /** `_flushPlusMinus()`: writes the pending deletes, then the pending
      inserts. */
  function PlusMinusFlushed(s: SmartState): (r: SmartState)
    ensures SmartWF(s) ==> SmartWF(r)
  {
    s.(emitted := s.emitted + MergeOutput(s.minus) + MergeOutput(s.plus),
       minus := MergeClear(MergeFlush(s.minus, false)),
       plus := MergeClear(MergeFlush(s.plus, false)))
  }

  /** How an op changes the document's length. */
  function Delta(op: Op): int {
    if op.opcode == Insert then op.chars else if op.opcode == Delete then -op.chars else 0
  }

  /** `append(op)`: null and empty ops are ignored; a delete or insert
      after keeps writes the keeps first, a keep after deletes and inserts
      writes those first. */
  function SmartAppend(s: SmartState, op: Op): (r: SmartState)
    ensures op.opcode == Null || op.chars == 0 ==> r == s
    ensures r.lengthChange == s.lengthChange + Delta(op)
    ensures SmartWF(s) ==> SmartWF(r)
  {
    if op.opcode == Null || op.chars == 0 then s
    else if op.opcode == Delete then
      var s1 := if s.last == Keep then KeepsFlushed(s) else s;
      s1.(minus := MergeAppend(s1.minus, op), lengthChange := s1.lengthChange - op.chars, last := Delete)
    else if op.opcode == Insert then
      var s1 := if s.last == Keep then KeepsFlushed(s) else s;
      s1.(plus := MergeAppend(s1.plus, op), lengthChange := s1.lengthChange + op.chars, last := Insert)
    else
      var s1 := if s.last != Keep then PlusMinusFlushed(s) else s;
      s1.(keep := MergeAppend(s1.keep, op), last := Keep)
  }

  function SmartFrom(s: SmartState, ops: seq<Op>): (r: SmartState)
    ensures SmartWF(s) ==> SmartWF(r)
  {
    if ops == [] then s else SmartAppend(SmartFrom(s, ops[..|ops| - 1]), ops[|ops| - 1])
  }

  /** `endDocument()`: only the keeps are told the document ends. */
  function SmartEnd(s: SmartState): (r: SmartState)
    ensures SmartWF(s) ==> SmartWF(r)
  {
    s.(keep := MergeFlush(s.keep, true))
  }

  /** The state `toString()` leaves: every pending op written. */
  function SmartFlushed(s: SmartState): (r: SmartState)
    ensures SmartWF(s) ==> SmartWF(r)
  {
    KeepsFlushed(PlusMinusFlushed(s))
  }

  /** `toString()`. */
  function SmartText(s: SmartState): string
    requires SmartWF(s)
  {
    OpsToString(SmartFlushed(s).emitted)
  }

  /** `clear()`, as intended: back to an empty assembler, the string
      assembler emptied too (the opcode of the last op is kept; the source
      does not reset it either).  As written the call throws: see
      `SmartClearAsWritten`. */
  function SmartClear(s: SmartState): (r: SmartState)
    ensures r.emitted == [] && r.lengthChange == 0
  {
    s.(minus := MergeClear(s.minus), plus := MergeClear(s.plus), keep := MergeClear(s.keep),
       emitted := [], lengthChange := 0)
  }

  /** As written, `clear()` calls `clear` on the `stringAssembler` that
      serves as `_assem`, which has only `append` and `toString`: after
      clearing the three merging assemblers the call throws a TypeError. */
  function SmartClearAsWritten(s: SmartState): (r: (SmartState, Outcome))
    ensures r.1 == Fail(NotAFunction)
    ensures r.0.emitted == s.emitted && r.0.lengthChange == s.lengthChange
  {
    (s.(minus := MergeClear(s.minus), plus := MergeClear(s.plus), keep := MergeClear(s.keep)), Fail(NotAFunction))
  }

  /** `getLengthChange()` after a run of ops: the characters inserted less
      the characters deleted. */
  function NetLength(ops: seq<Op>): int {
    if ops == [] then 0 else NetLength(ops[..|ops| - 1]) + Delta(ops[|ops| - 1])
  }

  lemma {:induction false} SmartLengthChange(s: SmartState, ops: seq<Op>)
    ensures SmartFrom(s, ops).lengthChange == s.lengthChange + NetLength(ops)
  {
    if ops != [] {
      SmartLengthChange(s, ops[..|ops| - 1]);
    }
  }


  // ---------------------------------------------------------------- ordering

  /** A merging assembler that holds only ops of one kind. */
  ghost predicate Holds(st: MergeState, c: OpCode) {
    (forall i :: 0 <= i < |st.out| ==> st.out[i].opcode == c) && (st.buf.opcode == Null || st.buf.opcode == c)
  }

  ghost predicate AllOf(ops: seq<Op>, c: OpCode) {
    forall i :: 0 <= i < |ops| ==> ops[i].opcode == c
  }

  /** No insert is written directly before a delete. */
  ghost predicate DeletesFirst(ops: seq<Op>) {
    forall i :: 0 <= i < |ops| - 1 ==> !(ops[i].opcode == Insert && ops[i + 1].opcode == Delete)
  }

  lemma {:induction false} HoldsAppend(st: MergeState, op: Op, c: OpCode)
    requires Holds(st, c) && (op.chars <= 0 || op.opcode == c)
    ensures Holds(MergeAppend(st, op), c)
  {
  }

  lemma {:induction false} HoldsOutput(st: MergeState, c: OpCode, isEnd: bool)
    requires Holds(st, c)
    ensures AllOf(MergeFlush(st, isEnd).out, c)
    ensures st.buf.opcode != Null && !isEnd ==>
              |MergeFlush(st, false).out| > 0 && MergeFlush(st, false).out[|MergeFlush(st, false).out| - 1].opcode == c
  {
  }

  lemma {:induction false} DeletesFirstAppend(a: seq<Op>, b: seq<Op>)
    requires DeletesFirst(a) && DeletesFirst(b)
    requires a != [] && b != [] ==> !(a[|a| - 1].opcode == Insert && b[0].opcode == Delete)
    ensures DeletesFirst(a + b)
  {
    var ab := a + b;
    forall i | 0 <= i < |ab| - 1 ensures !(ab[i].opcode == Insert && ab[i + 1].opcode == Delete) {
      if i < |a| - 1 {
        assert ab[i] == a[i] && ab[i + 1] == a[i + 1];
      } else if i >= |a| {
        assert ab[i] == b[i - |a|] && ab[i + 1] == b[i - |a| + 1];
      }
    }
  }

  lemma {:induction false} AllOfDeletesFirst(ops: seq<Op>, c: OpCode)
    requires AllOf(ops, c)
    ensures DeletesFirst(ops)
  {
  }

  /** The bookkeeping behind the ordering: each merging assembler holds
      its own kind; while keeps are being taken nothing else is pending;
      otherwise no keep is pending and what was written ends in a keep. */
  ghost predicate SmartInv(s: SmartState) {
    Holds(s.minus, Delete) && Holds(s.plus, Insert) && Holds(s.keep, Keep) && DeletesFirst(s.emitted)
    && (s.last == Keep ==> s.minus == MergeInit && s.plus == MergeInit && s.keep.buf.opcode == Keep)
    && (s.last != Keep ==> s.keep == MergeInit && (s.emitted == [] || s.emitted[|s.emitted| - 1].opcode == Keep))
  }

  /** Writing the pending keeps leaves the written ops in order, ending in
      a keep. */
  lemma {:induction false} KeepsFlushedOrder(s: SmartState)
    requires Holds(s.keep, Keep) && s.keep.buf.opcode == Keep && DeletesFirst(s.emitted)
    ensures var r := KeepsFlushed(s);
            r.keep == MergeInit && r.minus == s.minus && r.plus == s.plus && DeletesFirst(r.emitted)
            && r.emitted != [] && r.emitted[|r.emitted| - 1].opcode == Keep
  {
    HoldsOutput(s.keep, Keep, false);
    var out := MergeOutput(s.keep);
    AllOfDeletesFirst(out, Keep);
    DeletesFirstAppend(s.emitted, out);
    assert (s.emitted + out)[|s.emitted + out| - 1] == out[|out| - 1];
  }

  /** Writing the pending deletes and then the pending inserts after a
      keep (or at the start) leaves the written ops in order. */
  lemma {:induction false} PlusMinusFlushedOrder(s: SmartState)
    requires Holds(s.minus, Delete) && Holds(s.plus, Insert) && DeletesFirst(s.emitted)
    requires s.emitted == [] || s.emitted[|s.emitted| - 1].opcode == Keep
    ensures var r := PlusMinusFlushed(s);
            r.minus == MergeInit && r.plus == MergeInit && r.keep == s.keep && DeletesFirst(r.emitted)
  {
    var m := MergeOutput(s.minus);
    var p := MergeOutput(s.plus);
    HoldsOutput(s.minus, Delete, false);
    HoldsOutput(s.plus, Insert, false);
    AllOfDeletesFirst(m, Delete);
    AllOfDeletesFirst(p, Insert);
    DeletesFirstAppend(s.emitted, m);
    var e := s.emitted + m;
    if e != [] && p != [] {
      if m != [] {
        assert e[|e| - 1] == m[|m| - 1];
      } else {
        assert e == s.emitted;
      }
    }
    DeletesFirstAppend(e, p);
  }

  lemma {:induction false} SmartAppendInv(s: SmartState, op: Op)
    requires SmartInv(s) && op.chars >= 0
    ensures SmartInv(SmartAppend(s, op))
  {
    if op.opcode == Null || op.chars == 0 {
    } else if op.opcode == Delete || op.opcode == Insert {
      if s.last == Keep {
        KeepsFlushedOrder(s);
      }
      if op.opcode == Delete {
        HoldsAppend(s.minus, op, Delete);
      } else {
        HoldsAppend(s.plus, op, Insert);
      }
    } else {
      if s.last != Keep {
        PlusMinusFlushedOrder(s);
      }
      HoldsAppend(s.keep, op, Keep);
    }
  }

  lemma {:induction false} SmartFromInv(ops: seq<Op>)
    requires AllParsed(ops)
    ensures SmartInv(SmartFrom(SmartInit, ops))
  {
    if ops != [] {
      assert AllParsed(ops[..|ops| - 1]) && Parsed(ops[|ops| - 1]);
      SmartFromInv(ops[..|ops| - 1]);
      SmartAppendInv(SmartFrom(SmartInit, ops[..|ops| - 1]), ops[|ops| - 1]);
    }
  }

  /** The written ops of an assembler in order, with or without
      `endDocument()`, never put an insert directly before a delete: pending
      deletes always go out before pending inserts. */
  lemma {:induction false} SmartDeletesFirst(ops: seq<Op>, endDocument: bool)
    requires AllParsed(ops)
    ensures var s := SmartFrom(SmartInit, ops);
            DeletesFirst(SmartFlushed(if endDocument then SmartEnd(s) else s).emitted)
  {
    var s0 := SmartFrom(SmartInit, ops);
    SmartFromInv(ops);
    var s := if endDocument then SmartEnd(s0) else s0;
    var m := MergeOutput(s.minus);
    var p := MergeOutput(s.plus);
    var k := MergeOutput(s.keep);
    HoldsOutput(s.minus, Delete, false);
    HoldsOutput(s.plus, Insert, false);
    HoldsOutput(s0.keep, Keep, endDocument);
    HoldsOutput(s.keep, Keep, false);
    AllOfDeletesFirst(m, Delete);
    AllOfDeletesFirst(p, Insert);
    AllOfDeletesFirst(k, Keep);
    DeletesFirstAppend(s.emitted, m);
    var e := s.emitted + m;
    if e != [] && p != [] {
      if m != [] {
        assert e[|e| - 1] == m[|m| - 1];
      } else {
        assert e == s.emitted;
      }
    }
    DeletesFirstAppend(e, p);
    DeletesFirstAppend(e + p, k);
    assert SmartFlushed(s).emitted == e + p + k;
  }

  // ---------------------------------------------------------------- smart totals

  /** The characters and newlines taken so far, written or pending. */
  function SmartChars(s: SmartState): int {
    Chars(s.emitted) + PendingChars(s.minus) + PendingChars(s.plus) + PendingChars(s.keep)
  }

  function SmartLines(s: SmartState): int {
    Lines(s.emitted) + PendingLines(s.minus) + PendingLines(s.plus) + PendingLines(s.keep)
  }

  predicate SmartMergeInv(s: SmartState) {
    MergeInv(s.minus) && MergeInv(s.plus) && MergeInv(s.keep)
  }

  /** Writing the pending ops of one merging assembler and clearing it
      moves its totals into the written ops. */
  lemma {:induction false} FlushOneTotals(emitted: seq<Op>, st: MergeState)
    requires MergeInv(st)
    ensures Chars(emitted + MergeOutput(st)) == Chars(emitted) + PendingChars(st)
    ensures Lines(emitted + MergeOutput(st)) == Lines(emitted) + PendingLines(st)
    ensures MergeInv(MergeClear(MergeFlush(st, false)))
  {
    MergeFlushTotals(st);
    CharsLinesAppend(emitted, MergeOutput(st));
  }

  lemma {:induction false} SmartAppendTotals(s: SmartState, op: Op)
    requires SmartMergeInv(s) && Parsed(op)
    ensures SmartMergeInv(SmartAppend(s, op))
    ensures SmartChars(SmartAppend(s, op)) == SmartChars(s) + (if op.chars > 0 then op.chars else 0)
    ensures SmartLines(SmartAppend(s, op)) == SmartLines(s) + (if op.chars > 0 then op.lines else 0)
  {
    if op.chars != 0 {
      var s1 := if op.opcode != Keep then (if s.last == Keep then KeepsFlushed(s) else s)
                else (if s.last != Keep then PlusMinusFlushed(s) else s);
      if op.opcode != Keep && s.last == Keep {
        FlushOneTotals(s.emitted, s.keep);
      } else if op.opcode == Keep && s.last != Keep {
        FlushOneTotals(s.emitted, s.minus);
        FlushOneTotals(s.emitted + MergeOutput(s.minus), s.plus);
      }
      assert SmartMergeInv(s1) && SmartChars(s1) == SmartChars(s) && SmartLines(s1) == SmartLines(s);
      if op.opcode == Delete {
        MergeAppendTotals(s1.minus, op);
      } else if op.opcode == Insert {
        MergeAppendTotals(s1.plus, op);
      } else {
        MergeAppendTotals(s1.keep, op);
      }
    }
  }

  lemma {:induction false} SmartFromTotals(ops: seq<Op>)
    requires AllParsed(ops)
    ensures SmartMergeInv(SmartFrom(SmartInit, ops))
    ensures SmartChars(SmartFrom(SmartInit, ops)) == Chars(Positive(ops))
    ensures SmartLines(SmartFrom(SmartInit, ops)) == Lines(Positive(ops))
  {
    if ops != [] {
      var front := ops[..|ops| - 1];
      var op := ops[|ops| - 1];
      assert AllParsed(front) && Parsed(op);
      SmartFromTotals(front);
      SmartAppendTotals(SmartFrom(SmartInit, front), op);
      var pf := Positive(front);
      if op.chars > 0 {
        assert Positive(ops) == pf + [op];
        CharsLinesAppend(pf, [op]);
        assert [op][..0] == [];
      }
    }
  }

  /** Without `endDocument()`, the text a smart assembler writes holds
      every character and newline it was given, ignored ops aside:
      reordering and merging lose nothing. */
  lemma {:induction false} SmartRunTotals(ops: seq<Op>)
    requires AllParsed(ops)
    ensures Chars(SmartFlushed(SmartFrom(SmartInit, ops)).emitted) == Chars(Positive(ops))
    ensures Lines(SmartFlushed(SmartFrom(SmartInit, ops)).emitted) == Lines(Positive(ops))
  {
    var s := SmartFrom(SmartInit, ops);
    SmartFromTotals(ops);
    FlushOneTotals(s.emitted, s.minus);
    FlushOneTotals(s.emitted + MergeOutput(s.minus), s.plus);
    var s1 := PlusMinusFlushed(s);
    FlushOneTotals(s1.emitted, s1.keep);
  }

  // ---------------------------------------------------------------- clear

  /** Nothing taken, nothing written: what `clear()` leaves, whatever the
      opcode of the last op was. */
  predicate Idle(s: SmartState) {
    s.minus == MergeInit && s.plus == MergeInit && s.keep == MergeInit && s.emitted == [] && s.lengthChange == 0
  }

  lemma {:induction false} SmartFromIdle(a: SmartState, b: SmartState, ops: seq<Op>)
    requires Idle(a) && Idle(b)
    ensures SmartFrom(a, ops) == SmartFrom(b, ops) || (Idle(SmartFrom(a, ops)) && Idle(SmartFrom(b, ops)))
  {
    if ops != [] {
      var front := ops[..|ops| - 1];
      SmartFromIdle(a, b, front);
      var x, y := SmartFrom(a, front), SmartFrom(b, front);
      if x != y {
        assert MergeOutput(MergeInit) == [];
        assert MergeClear(MergeFlush(MergeInit, false)) == MergeInit;
      }
    }
  }

  /** After `clear()`, an assembler writes and counts exactly what a new
      one would. */
  lemma {:induction false} SmartClearFresh(s: SmartState, ops: seq<Op>)
    ensures SmartWF(SmartFrom(SmartClear(s), ops))
    ensures SmartText(SmartFrom(SmartClear(s), ops)) == SmartText(SmartFrom(SmartInit, ops))
    ensures SmartFrom(SmartClear(s), ops).lengthChange == SmartFrom(SmartInit, ops).lengthChange
  {
    var c := SmartClear(s);
    assert Idle(c) && SmartWF(c);
    SmartFromIdle(c, SmartInit, ops);
  }

  // ---------------------------------------------------------------- text

  /** The attributes `appendOpWithText` gives its ops: what
      `makeAttribsString` makes of them.  For an empty list of pairs that
      is `undefined`, which only matters once an op is written, and no op
      is written for an empty text (both of its ops have no characters). */
  function TextAttribs(opcode: char, text: string, attribs: AttribsArg, pool: Pool): (r: Result<(seq<nat>, Pool)>)
    ensures r.Err? <==> attribs.AttribPairs? && attribs.pairs == [] && text != ""
    ensures r.Err? ==> r.error == AttribsNotAString
    ensures MakeAttribsString(opcode, attribs, pool).Ok? ==> r == MakeAttribsString(opcode, attribs, pool)
    ensures MakeAttribsString(opcode, attribs, pool).Err? && r.Ok? ==> r.value == ([], pool)
  {
    match MakeAttribsString(opcode, attribs, pool)
    case Ok(v) => Ok(v)
    case Err(e) => if text == "" then Ok(([], pool)) else Err(e)
  }

  /** The ops `appendOpWithText` appends for `text`: one op up to and
      including the last newline, carrying every newline, then one for the
      rest of the line (ignored when empty). */
  function TextOps(opcode: OpCode, text: string, attribs: seq<nat>): (r: seq<Op>)
  {
    var k := LastIndexOf(text, '\n');
    if k < 0 then [Op(opcode, |text|, 0, attribs)]
    else [Op(opcode, k + 1, Count(text, '\n'), attribs), Op(opcode, |text| - (k + 1), 0, attribs)]
  }

  /** The ops cover the text: as many characters and newlines as it has,
      and an op with newlines ends just after the text's last newline. */
  lemma {:induction false} TextOpsCover(opcode: OpCode, text: string, attribs: seq<nat>)
    ensures var r := TextOps(opcode, text, attribs);
            Chars(r) == |text| && Lines(r) == Count(text, '\n')
            && (forall i :: 0 <= i < |r| ==> r[i].opcode == opcode && r[i].attribs == attribs && r[i].chars >= 0)
            && (forall i :: 0 <= i < |r| && r[i].lines > 0 ==>
                  i == 0 && text[r[i].chars - 1] == '\n' && Count(text[r[i].chars..], '\n') == 0)
  {
    var k := LastIndexOf(text, '\n');
    var r := TextOps(opcode, text, attribs);
    if k < 0 {
      CountNone(text, '\n');
      assert [r[0]][..0] == [];
    } else {
      var tail := text[k + 1..];
      assert text == text[..k + 1] + tail;
      CountAppend(text[..k + 1], tail, '\n');
      assert forall j :: 0 <= j < |tail| ==> tail[j] == text[k + 1 + j];
      CountNone(tail, '\n');
      CharsPair(r[0], r[1]);
    }
  }

  lemma {:induction false} SmartFromPair(s: SmartState, a: Op, b: Op)
    ensures SmartFrom(s, [a]) == SmartAppend(s, a)
    ensures SmartFrom(s, [a, b]) == SmartAppend(SmartAppend(s, a), b)
  {
    assert [a][..0] == [];
    assert [a, b][..1] == [a];
  }

  lemma {:induction false} SmartFromSnoc(s: SmartState, ops: seq<Op>, op: Op)
    ensures SmartFrom(s, ops + [op]) == SmartAppend(SmartFrom(s, ops), op)
  {
    assert (ops + [op])[..|ops|] == ops;
  }

  /** `SmartOpAssembler` (lines 406-501). */
  class SmartOpAssembler {
    const minusAssem: MergingOpAssembler
    const plusAssem: MergingOpAssembler
    const keepAssem: MergingOpAssembler
    /** `_assem`: a string assembler. */
    const assem: StringAssembler
    /** The ops written to `_assem` so far. */
    ghost var emitted: seq<Op>
    var lastOpcode: OpCode
    var lengthChange: int
    ghost const Repr: set<object>

    ghost predicate Valid()
      reads this, Repr
    {
      Repr == {minusAssem, minusAssem.assem, plusAssem, plusAssem.assem, keepAssem, keepAssem.assem, assem}
      && minusAssem != plusAssem && minusAssem != keepAssem && plusAssem != keepAssem
      && minusAssem.assem != plusAssem.assem && minusAssem.assem != keepAssem.assem
      && plusAssem.assem != keepAssem.assem
      && minusAssem.Valid() && plusAssem.Valid() && keepAssem.Valid()
      && NoNulls(emitted) && Join(assem.pieces) == OpsToString(emitted)
    }

    ghost function State(): SmartState
      reads this, Repr
      requires Valid()
    {
      SmartState(minusAssem.State(), plusAssem.State(), keepAssem.State(), emitted, lastOpcode, lengthChange)
    }

    constructor ()
      ensures Valid() && State() == SmartInit && fresh(Repr)
    {
      var m := new MergingOpAssembler();
      var p := new MergingOpAssembler();
      var k := new MergingOpAssembler();
      var a := new StringAssembler();
      minusAssem, plusAssem, keepAssem, assem := m, p, k, a;
      emitted := [];
      lastOpcode := Null;
      lengthChange := 0;
      Repr := {m, m.assem, p, p.assem, k, k.assem, a};
    }

    /** Appends the text of a merging assembler to `_assem`. */
    method Drain(m: MergingOpAssembler)
      requires Valid() && (m == minusAssem || m == plusAssem || m == keepAssem)
      modifies this, m, m.assem, assem
      ensures Valid() && emitted == old(emitted) + MergeOutput(old(m.State()))
      ensures m.State() == MergeClear(MergeFlush(old(m.State()), false))
      ensures m != minusAssem ==> unchanged(minusAssem, minusAssem.assem)
      ensures m != plusAssem ==> unchanged(plusAssem, plusAssem.assem)
      ensures m != keepAssem ==> unchanged(keepAssem, keepAssem.assem)
      ensures lastOpcode == old(lastOpcode) && lengthChange == old(lengthChange)
    {
      var t := m.ToString();
      ghost var out := MergeOutput(old(m.State()));
      OpsToStringAppend(emitted, out);
      JoinSnoc(assem.pieces, t);
      assem.Append(t);
      emitted := emitted + out;
      m.Clear();
    }

    /** Appends an op to a merging assembler. */
    method Put(m: MergingOpAssembler, op: Op)
      requires Valid() && (m == minusAssem || m == plusAssem || m == keepAssem)
      modifies m, m.assem
      ensures Valid()
      ensures m == minusAssem ==> State() == old(State()).(minus := MergeAppend(old(State()).minus, op))
      ensures m == plusAssem ==> State() == old(State()).(plus := MergeAppend(old(State()).plus, op))
      ensures m == keepAssem ==> State() == old(State()).(keep := MergeAppend(old(State()).keep, op))
    {
      m.Append(op);
    }

    /** `_flushKeeps()`. */
    method FlushKeeps()
      requires Valid()
      modifies this, Repr
      ensures Valid() && State() == KeepsFlushed(old(State()))
    {
      Drain(keepAssem);
    }

    /** `_flushPlusMinus()`. */
    method FlushPlusMinus()
      requires Valid()
      modifies this, Repr
      ensures Valid() && State() == PlusMinusFlushed(old(State()))
    {
      Drain(minusAssem);
      Drain(plusAssem);
    }

    /** `append(op)`. */
    method Append(op: Op)
      requires Valid()
      modifies this, Repr
      ensures Valid() && State() == SmartAppend(old(State()), op)
    {
      if op.opcode == Null || op.chars == 0 {
        return;
      }
      if op.opcode == Delete {
        AppendMinus(op);
      } else if op.opcode == Insert {
        AppendPlus(op);
      } else {
        AppendKeep(op);
      }
    }

    /** The delete branch of `append(op)`. */
    method AppendMinus(op: Op)
      requires Valid() && op.opcode == Delete && op.chars != 0
      modifies this, Repr
      ensures Valid() && State() == SmartAppend(old(State()), op)
    {
      if lastOpcode == Keep {
        FlushKeeps();
      }
      Put(minusAssem, op);
      lengthChange := lengthChange - op.chars;
      lastOpcode := op.opcode;
    }

    /** The insert branch of `append(op)`. */
    method AppendPlus(op: Op)
      requires Valid() && op.opcode == Insert && op.chars != 0
      modifies this, Repr
      ensures Valid() && State() == SmartAppend(old(State()), op)
    {
      if lastOpcode == Keep {
        FlushKeeps();
      }
      Put(plusAssem, op);
      lengthChange := lengthChange + op.chars;
      lastOpcode := op.opcode;
    }

    /** The keep branch of `append(op)`. */
    method AppendKeep(op: Op)
      requires Valid() && op.opcode == Keep && op.chars != 0
      modifies this, Repr
      ensures Valid() && State() == SmartAppend(old(State()), op)
    {
      if lastOpcode != Keep {
        FlushPlusMinus();
      }
      Put(keepAssem, op);
      lastOpcode := op.opcode;
    }

    /** `appendOpWithText(opcode, text, attribs, pool)`: the attributes are
        made into a string first, which fails for an empty list of pairs
        when there is text to write; then the text goes in as `TextOps`
        says. */
    method AppendOpWithText(opcode: OpCode, text: string, attribs: AttribsArg, pool: Pool) returns (r: Result<Pool>)
      requires Valid() && opcode != Null
      modifies this, Repr
      ensures Valid()
      ensures var a := TextAttribs(OpCodeChar(opcode), text, attribs, pool);
              (r.Err? <==> a.Err?) && (r.Err? ==> r.error == a.error && State() == old(State()))
              && (r.Ok? ==> r.value == a.value.1 && State() == SmartFrom(old(State()), TextOps(opcode, text, a.value.0)))
    {
      var a := TextAttribs(OpCodeChar(opcode), text, attribs, pool);
      if a.Err? {
        return Err(a.error);
      }
      var ids := a.value.0;
      ghost var s0 := State();
      var k := LastIndexOf(text, '\n');
      if k < 0 {
        var only := Op(opcode, |text|, 0, ids);
        Append(only);
        SmartFromPair(s0, only, only);
      } else {
        var first := Op(opcode, k + 1, Count(text, '\n'), ids);
        var second := Op(opcode, |text| - (k + 1), 0, ids);
        Append(first);
        Append(second);
        SmartFromPair(s0, first, second);
      }
      return Ok(a.value.1);
    }

    /** `toString()`: writes every pending op first. */
    method ToString() returns (t: string)
      requires Valid()
      modifies this, Repr
      ensures Valid() && State() == SmartFlushed(old(State()))
      ensures t == SmartText(old(State()))
    {
      FlushPlusMinus();
      FlushKeeps();
      t := assem.ToString();
    }

    /** `endDocument()`. */
    method EndDocument()
      requires Valid()
      modifies this, Repr
      ensures Valid() && State() == SmartEnd(old(State()))
    {
      keepAssem.EndDocument();
    }

    /** `getLengthChange()`. */
    method GetLengthChange() returns (n: int)
      requires Valid()
      ensures n == State().lengthChange
    {
      n := lengthChange;
    }

    /** `clear()`, as intended: the string assembler is emptied too. */
    method Clear()
      requires Valid()
      modifies this, Repr
      ensures Valid() && State() == SmartClear(old(State()))
    {
      minusAssem.Clear();
      plusAssem.Clear();
      keepAssem.Clear();
      assem.pieces := [];
      emitted := [];
      lengthChange := 0;
    }
  }
}
