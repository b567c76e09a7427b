/** `subattribution(astr, start, optEnd)` (Changeset.js lines 1906-1942):
    the substring of a single-line attribution string.  The attribution is
    zipped by `slicerZipperFunc` against a delete of `start` characters and
    then against a keep of `optEnd - start` characters (or, without an end,
    the rest of the attribution is copied), and the ops written go through
    a smart assembler. */
module Subattributions {
  import opened Results
  import opened Ops
  import opened Pools
  import opened Assemblers
  import opened Zips
  import opened Composition

  /** The source passes a null pool: the window op carries no attributes,
      so composing never consults it (see `WindowNeedsNoPool`). */
  const NoPool := Pool([])

  /** An op of a single-line attribution: an insert with at most one
      newline, which it cannot have without a character to hold it. */
  predicate Piece(op: Op) {
    op.opcode == Insert && 0 <= op.lines <= 1 && op.lines <= op.chars
  }

  predicate SingleLine(ops: seq<Op>) {
    forall i :: 0 <= i < |ops| ==> Piece(ops[i])
  }

  /** The attribution op in hand: nothing, or a piece. */
  predicate InHand(op: Op) {
    op.opcode == Null || Piece(op)
  }

  /** The window op: a delete or keep of characters only. */
  predicate WindowOp(op: Op) {
    op.opcode in {Delete, Keep} && op.chars > 0 && op.lines == 0 && op.attribs == []
  }

  /** `if (... csOp.chars >= attOp.chars && attOp.lines > 0 && csOp.lines <= 0) csOp.lines++;`:
      a window op that covers an attribution op holding the newline is
      given the newline too, so that the line counts agree. */
  function Bumped(attOp: Op, csOp: Op): Op {
    if csOp.opcode != Null && attOp.opcode != Null && csOp.chars >= attOp.chars
       && attOp.lines > 0 && csOp.lines <= 0
    then csOp.(lines := csOp.lines + 1)
    else csOp
  }

  /** What a run of `doCsOp` leaves: the attribution op in hand, the window
      op, the attribution ops not yet taken, and the ops written. */
  datatype Windowed = Windowed(attOp: Op, csOp: Op, rest: Stream, out: seq<Op>)

  /** The loop of `doCsOp`: while the window op is in use and the
      attribution has an op, take the next one, call `slicerZipperFunc` and
      write what it returns. */
  function Window(attOp: Op, csOp: Op, st: Stream): (r: Result<Windowed>)
    requires AllParsed(st.ops)
    ensures r.Ok? ==> AllParsed(r.value.rest.ops) && r.value.rest.fault == st.fault
    decreases 2 * |st.ops| + Live(attOp) + Live(csOp)
  {
    if csOp.opcode == Null || (attOp.opcode == Null && st.ops == []) then Ok(Windowed(attOp, csOp, st, []))
    else
      var x :- Fetch(attOp, st);
      var c := Bumped(x.0, csOp);
      var z :- Slice(x.0, c, NoPool);
      SliceProgress(x.0, c, NoPool);
      var w :- Window(z.op1, z.op2, x.1);
      Ok(w.(out := Emit(z.out) + w.out))
  }

  /** `doCsOp()`: nothing happens for a window of no characters. */
  function DoCsOp(attOp: Op, csOp: Op, st: Stream): (r: Result<Windowed>)
    requires AllParsed(st.ops)
    ensures r.Ok? ==> AllParsed(r.value.rest.ops) && r.value.rest.fault == st.fault
    ensures csOp.chars == 0 ==> r == Ok(Windowed(attOp, csOp, st, []))
  {
    if csOp.chars == 0 then Ok(Windowed(attOp, csOp, st, [])) else Window(attOp, csOp, st)
  }

  /** `while (iter.hasNext()) assem.append(iter.next());`: the ops left,
      unless the stream ends in the error token. */
  function Drain(st: Stream): (r: Result<seq<Op>>)
    ensures r.Ok? <==> !(st.fault && st.ops != [])
    ensures r.Ok? ==> r.value == st.ops
    ensures r.Err? ==> r.error == ErrorOpcode
    decreases |st.ops|
  {
    if st.ops == [] then Ok([])
    else
      var x :- StreamNext(st);
      var tail :- Drain(x.1);
      Ok([x.0] + tail)
  }

  /** The ops `subattribution` writes: the delete window first, then the
      keep window or the rest of the attribution. */
  function SubattributionOps(astr: string, start: int, optEnd: Option<int>): (r: Result<seq<Op>>)
    ensures OpenStream(ParseOps(astr)).Fail? ==> r == Err(ErrorOpcode)
  {
    var st := ParseOps(astr);
    if OpenStream(st).Fail? then Err(ErrorOpcode)
    else
      var w1 :- DoCsOp(NewOp(Null), NewOp(Delete).(chars := start), st);
      match optEnd
      case None =>
        var tail :- Drain(w1.rest);
        Ok(w1.out + Emit(w1.attOp) + tail)
      case Some(end) =>
        var w2 :- DoCsOp(w1.attOp, w1.csOp.(opcode := Keep, chars := end - start), w1.rest);
        Ok(w1.out + w2.out)
  }

  /** `subattribution(astr, start, optEnd)`: `toString()` of the smart
      assembler, without `endDocument()`. */
  function SubattributionSpec(astr: string, start: int, optEnd: Option<int>): (r: Result<string>)
    ensures SubattributionOps(astr, start, optEnd).Err? ==> r.Err?
    ensures r.Ok? ==> r.value == OpsToString(SmartFlushed(SmartFrom(SmartInit, SubattributionOps(astr, start, optEnd).value)).emitted)
  {
    var ops :- SubattributionOps(astr, start, optEnd);
    Ok(SmartText(SmartFrom(SmartInit, ops)))
  }

  // ------------------------------------------------------------ proofs

  /** The null pool is never consulted: with a window op that carries no
      attributes, `slicerZipperFunc` gives the same answer for every pool
      and hands the pool back untouched. */
  lemma {:induction false} WindowNeedsNoPool(attOp: Op, csOp: Op, p: Pool, q: Pool)
    requires csOp.attribs == []
    ensures Slice(attOp, csOp, p).Ok? <==> Slice(attOp, csOp, q).Ok?
    ensures Slice(attOp, csOp, p).Ok? ==>
              Slice(attOp, csOp, p).value.state == p
              && Slice(attOp, csOp, p).value == Slice(attOp, csOp, q).value.(state := p)
  {
  }

  /** One call on a piece and a window op: it never throws; the shorter of
      the two is used up and the longer loses as many characters; a keep
      writes the covered characters as an insert with the piece's
      attributes, a delete writes nothing.  The window op never ends up
      holding a newline. */
  lemma {:induction false} WindowStep(a: Op, c: Op)
    requires Piece(a) && WindowOp(c)
    ensures var z := Slice(a, Bumped(a, c), NoPool);
            && z.Ok?
            && (c.opcode == Delete ==> z.value.out.opcode == Null)
            && (c.opcode == Keep ==> z.value.out.opcode == Insert && Parsed(z.value.out)
                                     && z.value.out.chars == Min(a.chars, c.chars)
                                     && z.value.out.attribs == a.attribs)
            && (if a.chars <= c.chars then z.value.op1.opcode == Null
                else Piece(z.value.op1) && z.value.op1.chars == a.chars - c.chars)
            && (if c.chars <= a.chars then z.value.op2.opcode == Null
                else WindowOp(z.value.op2) && z.value.op2.opcode == c.opcode
                     && z.value.op2.chars == c.chars - a.chars)
            && z.value.op2.lines == 0 && z.value.op2.attribs == []
  {
    var b := Bumped(a, c);
    assert b.chars == c.chars && b.opcode == c.opcode && b.attribs == [];
    assert b.lines == (if a.chars <= c.chars && a.lines > 0 then 1 else 0);
    SliceChecks(a, b, NoPool);
    SliceTable(a, b, NoPool);
    SliceConsumes(a, b, NoPool);
  }

  /** What the attribution still holds: the op in hand and the ops not yet
      taken. */
  function Avail(op: Op, st: Stream): int {
    Total([op], {Insert}) + Total(st.ops, {Insert})
  }

  /** The totals of one call: the piece loses what the window covers, and
      a keep writes it. */
  lemma {:induction false} WindowStepTotals(a: Op, c: Op)
    requires Piece(a) && WindowOp(c)
    ensures Slice(a, Bumped(a, c), NoPool).Ok?
    ensures var z := Slice(a, Bumped(a, c), NoPool).value;
            && Total([z.op1], {Insert}) == a.chars - Min(a.chars, c.chars)
            && AllParsed(Emit(z.out)) && AllInserts(Emit(z.out))
            && Total(Emit(z.out), {Insert}) == (if c.opcode == Keep then Min(a.chars, c.chars) else 0)
  {
    WindowStep(a, c);
    var z := Slice(a, Bumped(a, c), NoPool).value;
    TotalOne(z.op1, {Insert});
    TotalEmpty({Insert});
    TotalOne(z.out, {Insert});
  }

  /** Taking the next piece when the hand is empty: it never throws, and
      the attribution holds as much as before. */
  lemma {:induction false} FetchPiece(attOp: Op, st: Stream)
    requires AllParsed(st.ops) && SingleLine(st.ops) && !st.fault && InHand(attOp)
    requires attOp.opcode != Null || st.ops != []
    ensures Fetch(attOp, st).Ok?
    ensures var x := Fetch(attOp, st).value;
            && Piece(x.0) && SingleLine(x.1.ops) && !x.1.fault
            && Avail(x.0, x.1) == Avail(attOp, st)
            && (if attOp.opcode == Null then |x.1.ops| == |st.ops| - 1 else x == (attOp, st))
  {
    var x := Fetch(attOp, st).value;
    if attOp.opcode == Null {
      assert x.0 == st.ops[0] && x.1.ops == st.ops[1..];
      assert [x.0] + x.1.ops == st.ops;
      TotalAppend([x.0], x.1.ops, {Insert});
      TotalOne(attOp, {Insert});
      TotalEmpty({Insert});
      forall i | 0 <= i < |x.1.ops| ensures Piece(x.1.ops[i]) {
        assert x.1.ops[i] == st.ops[i + 1];
      }
    }
  }

  /** One turn of `doCsOp`'s loop. */
  lemma {:induction false} WindowUnfold(attOp: Op, csOp: Op, st: Stream)
    requires AllParsed(st.ops) && csOp.opcode != Null && !(attOp.opcode == Null && st.ops == [])
    requires Fetch(attOp, st).Ok?
    requires var x := Fetch(attOp, st).value; Slice(x.0, Bumped(x.0, csOp), NoPool).Ok?
    ensures var x := Fetch(attOp, st).value;
            var z := Slice(x.0, Bumped(x.0, csOp), NoPool).value;
            && AllParsed(x.1.ops)
            && Window(attOp, csOp, st).Ok? == Window(z.op1, z.op2, x.1).Ok?
            && (Window(attOp, csOp, st).Ok? ==>
                  Window(attOp, csOp, st).value
                  == Window(z.op1, z.op2, x.1).value.(out := Emit(z.out) + Window(z.op1, z.op2, x.1).value.out))
  {
  }

  /** A run of `doCsOp`'s loop over a single-line attribution never throws;
      it uses up as many of the attribution's characters as the window
      holds (all of them when the attribution is shorter), writes nothing
      for a delete window and, for a keep window, inserts holding exactly
      the characters used up. */
  lemma {:induction false} WindowTotals(attOp: Op, csOp: Op, st: Stream)
    requires AllParsed(st.ops) && SingleLine(st.ops) && !st.fault
    requires InHand(attOp) && WindowOp(csOp)
    ensures var r := Window(attOp, csOp, st);
            && r.Ok?
            && InHand(r.value.attOp) && SingleLine(r.value.rest.ops)
            && r.value.csOp.lines == 0 && r.value.csOp.attribs == []
            && Avail(r.value.attOp, r.value.rest) == Avail(attOp, st) - Min(csOp.chars, Avail(attOp, st))
            && AllParsed(r.value.out) && AllInserts(r.value.out)
            && Total(r.value.out, {Insert}) == (if csOp.opcode == Keep then Min(csOp.chars, Avail(attOp, st)) else 0)
    decreases 2 * |st.ops| + Live(attOp) + Live(csOp)
  {
    hide Window, Slice, Fetch, Bumped, Total, Emit;
    TotalOne(attOp, {Insert});
    TotalEmpty({Insert});
    if attOp.opcode == Null && st.ops == [] {
      WindowExit(attOp, csOp, st);
    } else {
      FetchPiece(attOp, st);
      var x := Fetch(attOp, st).value;
      WindowStep(x.0, csOp);
      WindowStepTotals(x.0, csOp);
      WindowUnfold(attOp, csOp, st);
      var z := Slice(x.0, Bumped(x.0, csOp), NoPool).value;
      TotalNonNegative(x.1.ops, {Insert});
      TotalOne(x.0, {Insert});
      if z.op2.opcode == Null {
        WindowExit(z.op1, z.op2, x.1);
      } else {
        WindowTotals(z.op1, z.op2, x.1);
      }
      var w := Window(z.op1, z.op2, x.1).value;
      TotalAppend(Emit(z.out), w.out, {Insert});
      AllInsertsAppend(Emit(z.out), w.out);
    }
  }

  /** The loop does not run once the window op or the attribution is
      used up. */
  lemma {:induction false} WindowExit(attOp: Op, csOp: Op, st: Stream)
    requires AllParsed(st.ops) && (csOp.opcode == Null || (attOp.opcode == Null && st.ops == []))
    ensures Window(attOp, csOp, st) == Ok(Windowed(attOp, csOp, st, []))
  {
  }

  lemma {:induction false} AllInsertsAppend(a: seq<Op>, b: seq<Op>)
    requires AllParsed(a) && AllParsed(b) && AllInserts(a) && AllInserts(b)
    ensures AllParsed(a + b) && AllInserts(a + b)
  {
    forall i | 0 <= i < |a + b| ensures Parsed((a + b)[i]) && (a + b)[i].opcode == Insert {
      if i < |a| { assert (a + b)[i] == a[i]; } else { assert (a + b)[i] == b[i - |a|]; }
    }
  }

  lemma {:induction false} SingleLineParsed(ops: seq<Op>)
    requires SingleLine(ops)
    ensures AllParsed(ops) && AllInserts(ops)
  {
  }

  /** Characters of a list of inserts, as the assembler counts them. */
  lemma {:induction false} InsertChars(ops: seq<Op>)
    requires AllParsed(ops) && AllInserts(ops)
    ensures Chars(Positive(ops)) == Total(ops, {Insert})
  {
    if ops != [] {
      var front := ops[..|ops| - 1];
      var op := ops[|ops| - 1];
      assert AllParsed(front) && AllInserts(front);
      InsertChars(front);
      if op.chars > 0 {
        CharsLinesAppend(Positive(front), [op]);
        assert [op][..0] == [];
      }
    }
  }

  /** The characters a window keeps of an attribution of `total`
      characters: those from `start` up to `optEnd`, or to the end. */
  function Kept(total: int, start: int, optEnd: Option<int>): int {
    (if optEnd.None? then total else Min(optEnd.value, total)) - Min(start, total)
  }

  /** The first window deletes the characters before `start`. */
  lemma {:induction false} FirstWindow(astr: string, start: int)
    requires SingleLine(ParseOps(astr).ops) && !ParseOps(astr).fault && 0 <= start
    ensures var st := ParseOps(astr);
            var w := DoCsOp(NewOp(Null), NewOp(Delete).(chars := start), st);
            && w.Ok?
            && InHand(w.value.attOp) && SingleLine(w.value.rest.ops) && !w.value.rest.fault
            && w.value.csOp.lines == 0 && w.value.csOp.attribs == []
            && Avail(w.value.attOp, w.value.rest) == Total(st.ops, {Insert}) - Min(start, Total(st.ops, {Insert}))
            && AllParsed(w.value.out) && AllInserts(w.value.out) && Total(w.value.out, {Insert}) == 0
  {
    var st := ParseOps(astr);
    var none := NewOp(Null);
    TotalOne(none, {Insert});
    TotalEmpty({Insert});
    SingleLineParsed(st.ops);
    TotalNonNegative(st.ops, {Insert});
    if start != 0 {
      WindowTotals(none, NewOp(Delete).(chars := start), st);
    }
  }

  /** What the first window leaves of a single-line attribution. */
  predicate AfterDelete(w: Windowed) {
    && InHand(w.attOp) && AllParsed(w.rest.ops) && SingleLine(w.rest.ops) && !w.rest.fault
    && w.csOp.lines == 0 && w.csOp.attribs == []
    && AllParsed(w.out) && AllInserts(w.out) && Total(w.out, {Insert}) == 0
  }

  /** Without an end, the piece in hand and the ops left are copied: all
      that the attribution still holds. */
  lemma {:induction false} TailTotals(w: Windowed)
    requires AfterDelete(w)
    ensures var ops := w.out + Emit(w.attOp) + w.rest.ops;
            && AllParsed(ops) && AllInserts(ops)
            && Total(ops, {Insert}) == Avail(w.attOp, w.rest)
  {
    SingleLineParsed(w.rest.ops);
    TotalOne(w.attOp, {Insert});
    TotalEmpty({Insert});
    AllInsertsAppend(w.out, Emit(w.attOp));
    AllInsertsAppend(w.out + Emit(w.attOp), w.rest.ops);
    TotalAppend(w.out, Emit(w.attOp), {Insert});
    TotalAppend(w.out + Emit(w.attOp), w.rest.ops, {Insert});
  }

  /** With an end, the keep window copies as much as it covers of what the
      attribution still holds. */
  lemma {:induction false} KeepTotals(w: Windowed, k: int)
    requires AfterDelete(w) && k >= 0
    ensures var w2 := DoCsOp(w.attOp, w.csOp.(opcode := Keep, chars := k), w.rest);
            && w2.Ok?
            && AllParsed(w.out + w2.value.out) && AllInserts(w.out + w2.value.out)
            && Total(w.out + w2.value.out, {Insert}) == Min(k, Avail(w.attOp, w.rest))
  {
    var c := w.csOp.(opcode := Keep, chars := k);
    TotalOne(w.attOp, {Insert});
    TotalEmpty({Insert});
    SingleLineParsed(w.rest.ops);
    TotalNonNegative(w.rest.ops, {Insert});
    if k != 0 {
      WindowTotals(w.attOp, c, w.rest);
    }
    var w2 := DoCsOp(w.attOp, c, w.rest).value;
    AllInsertsAppend(w.out, w2.out);
    TotalAppend(w.out, w2.out, {Insert});
  }

  /** `subattribution` on a single-line attribution, with a window that
      starts at or after 0 and ends at or after its start, never throws,
      and writes inserts holding exactly the attribution's characters from
      `start` up to `optEnd` (to the end without one), cut off where the
      attribution ends; the assembler's string covers the same characters. */
  lemma {:induction false} SubattributionKeeps(astr: string, start: int, optEnd: Option<int>)
    requires SingleLine(ParseOps(astr).ops) && !ParseOps(astr).fault
    requires 0 <= start && (optEnd.Some? ==> start <= optEnd.value)
    ensures var r := SubattributionOps(astr, start, optEnd);
            && r.Ok? && AllParsed(r.value) && AllInserts(r.value)
            && Total(r.value, {Insert}) == Kept(Total(ParseOps(astr).ops, {Insert}), start, optEnd)
            && Chars(SmartFlushed(SmartFrom(SmartInit, r.value)).emitted)
               == Kept(Total(ParseOps(astr).ops, {Insert}), start, optEnd)
    ensures SubattributionSpec(astr, start, optEnd).Ok?
  {
    hide Window, Slice, Fetch, Total, Chars, Positive, SmartFrom, SmartFlushed, SmartText, OpsToString;
    var st := ParseOps(astr);
    FirstWindow(astr, start);
    var w1 := DoCsOp(NewOp(Null), NewOp(Delete).(chars := start), st).value;
    assert AfterDelete(w1);
    var ops;
    match optEnd {
      case None =>
        TailTotals(w1);
        ops := w1.out + Emit(w1.attOp) + w1.rest.ops;
      case Some(end) =>
        KeepTotals(w1, end - start);
        ops := w1.out + DoCsOp(w1.attOp, w1.csOp.(opcode := Keep, chars := end - start), w1.rest).value.out;
    }
    assert SubattributionOps(astr, start, optEnd) == Ok(ops);
    SmartRunTotals(ops);
    InsertChars(ops);
  }

  /** A window op with a negative count breaks `slicerZipperFunc`'s check
      that no op has more newlines than characters: a negative `start`
      throws at the first attribution op, and so does an `optEnd` before
      `start` when the attribution goes on past `start`. */
  lemma {:induction false} SubattributionBadWindow(astr: string, start: int, optEnd: Option<int>)
    requires SingleLine(ParseOps(astr).ops) && !ParseOps(astr).fault
    requires (start < 0 && ParseOps(astr).ops != [])
             || (0 <= start < Total(ParseOps(astr).ops, {Insert}) && optEnd.Some? && optEnd.value < start)
    ensures SubattributionOps(astr, start, optEnd) == Err(TooManyNewlines)
  {
    var st := ParseOps(astr);
    if start < 0 {
      BadWindowOp(NewOp(Null), NewOp(Delete).(chars := start), st);
    } else {
      FirstWindow(astr, start);
      var w1 := DoCsOp(NewOp(Null), NewOp(Delete).(chars := start), st).value;
      TotalOne(w1.attOp, {Insert});
      TotalEmpty({Insert});
      assert w1.attOp.opcode != Null || w1.rest.ops != [];
      BadWindowOp(w1.attOp, w1.csOp.(opcode := Keep, chars := optEnd.value - start), w1.rest);
    }
  }

  /** A window op with fewer than no characters throws at the first piece. */
  lemma {:induction false} BadWindowOp(attOp: Op, csOp: Op, st: Stream)
    requires AllParsed(st.ops) && SingleLine(st.ops) && !st.fault && InHand(attOp)
    requires attOp.opcode != Null || st.ops != []
    requires csOp.opcode in {Delete, Keep} && csOp.chars < 0 && csOp.lines == 0
    ensures Window(attOp, csOp, st) == Err(TooManyNewlines)
    ensures DoCsOp(attOp, csOp, st) == Err(TooManyNewlines)
  {
    FetchPiece(attOp, st);
    var x := Fetch(attOp, st).value;
    assert Bumped(x.0, csOp) == csOp;
    SliceChecks(x.0, csOp, NoPool);
  }
}
