/** `applyToText` (Changeset.js lines 1057-1093): applies a changeset to a
    string, checking every op's newline count against the text it covers. */
module Apply {
  import opened Results
  import opened Ops
  import opened Codec
  import opened OpIters
  import opened Texts
  import opened Cursors
  import opened Assemblers
  import opened CheckReps

  /** The loop's state: the two iterator positions and the output so far. */
  datatype Applied = Applied(bankPos: int, strPos: int, out: string)

  const AppliedInit := Applied(0, 0, "")

  /** One turn of the loop: an insert copies from the char bank, a keep
      copies from the text and a delete skips it; each first checks that
      the op's `lines` is the number of newlines in the span. */
  function ApplyStep(bank: string, text: string, a: Applied, o: Op): (r: Result<Applied>)
    ensures r.Err? ==> r.error == OutOfBounds || r.error == NewlineCountWrong
  {
    match o.opcode
    case Insert =>
      var piece :- PeekAt(bank, a.bankPos, Width(o));
      if o.lines != Count(piece, '\n') then Err(NewlineCountWrong)
      else Ok(a.(bankPos := a.bankPos + Width(o), out := a.out + piece))
    case Delete =>
      var piece :- PeekAt(text, a.strPos, Width(o));
      if o.lines != Count(piece, '\n') then Err(NewlineCountWrong)
      else Ok(a.(strPos := a.strPos + Width(o)))
    case Keep =>
      var piece :- PeekAt(text, a.strPos, Width(o));
      if o.lines != Count(piece, '\n') then Err(NewlineCountWrong)
      else Ok(a.(strPos := a.strPos + Width(o), out := a.out + piece))
    case Null => Ok(a)
  }

  function ApplyFn(bank: string, text: string): (Applied, Op) -> Result<Applied> {
    (a, o) => ApplyStep(bank, text, a, o)
  }

  /** What `applyToText(cs, str)` returns or throws: after the ops, the
      rest of the text is copied unchanged. */
  function ApplyToTextSpec(cs: string, text: string): (r: Result<string>)
  {
    var c :- Unpack(cs);
    if |text| != c.oldLen then Err(MismatchedLength)
    else
      var a :- ForOf(ApplyFn(c.charBank, text), AppliedInit, ParseOps(c.ops));
      ApplyFoldPos(c.charBank, text, Visible(ParseOps(c.ops)));
      Ok(a.out + text[a.strPos..])
  }

  /** The loop's positions are the running totals of the ops: the bank is
      read up to the inserted characters and the text up to the kept and
      deleted ones; the output holds as many characters and newlines as
      the ops keep and insert, and the text consumed holds as many newlines
      as the ops keep and delete. */
  ghost predicate Tallied(bank: string, text: string, ops: seq<Op>, a: Applied) {
    && a.bankPos == Total(ops, {Insert}) && 0 <= a.bankPos <= |bank|
    && a.strPos == Total(ops, {Keep, Delete}) && 0 <= a.strPos <= |text|
    && |a.out| == Total(ops, {Keep, Insert})
    && Count(a.out, '\n') == LineTotal(ops, {Keep, Insert})
    && Count(text[..a.strPos], '\n') == LineTotal(ops, {Keep, Delete})
  }

  lemma {:induction false} ApplyFold(bank: string, text: string, ops: seq<Op>)
    requires AllParsed(ops)
    ensures var r := Fold(ApplyFn(bank, text), AppliedInit, ops);
            r.Ok? ==> Tallied(bank, text, ops, r.value)
  {
    if ops == [] {
      assert text[..0] == "";
    } else {
      var front, o := ops[..|ops| - 1], ops[|ops| - 1];
      assert ops == front + [o];
      assert AllParsed(front) && Parsed(o);
      ApplyFold(bank, text, front);
      FoldSnoc(ApplyFn(bank, text), AppliedInit, front, o);
      var r0 := Fold(ApplyFn(bank, text), AppliedInit, front);
      if r0.Ok? && ApplyStep(bank, text, r0.value, o).Ok? {
        ApplyStepTallied(bank, text, front, o, r0.value);
      }
    }
  }

  lemma {:induction false} ApplyStepTallied(bank: string, text: string, ops: seq<Op>, o: Op, a: Applied)
    requires Parsed(o) && Tallied(bank, text, ops, a) && ApplyStep(bank, text, a, o).Ok?
    ensures Tallied(bank, text, ops + [o], ApplyStep(bank, text, a, o).value)
  {
    TotalSnoc(ops, o, {Insert});
    TotalSnoc(ops, o, {Keep, Delete});
    TotalSnoc(ops, o, {Keep, Insert});
    LineTotalSnoc(ops, o, {Keep, Insert});
    LineTotalSnoc(ops, o, {Keep, Delete});
    if o.opcode == Insert {
      var piece := bank[a.bankPos..a.bankPos + o.chars];
      CountAppend(a.out, piece, '\n');
    } else {
      TextStepTallied(text, a, o);
    }
  }

  /** A keep or a delete moves the text position over a span whose
      newlines are the op's. */
  lemma {:induction false} TextStepTallied(text: string, a: Applied, o: Op)
    requires Parsed(o) && o.opcode in {Keep, Delete} && 0 <= a.strPos <= |text|
    requires PeekAt(text, a.strPos, Width(o)).Ok?
    requires o.lines == Count(PeekAt(text, a.strPos, Width(o)).value, '\n')
    ensures var piece := text[a.strPos..a.strPos + o.chars];
            && Count(text[..a.strPos + o.chars], '\n') == Count(text[..a.strPos], '\n') + o.lines
            && Count(a.out + piece, '\n') == Count(a.out, '\n') + o.lines
  {
    var piece := text[a.strPos..a.strPos + o.chars];
    assert text[..a.strPos + o.chars] == text[..a.strPos] + piece;
    CountAppend(text[..a.strPos], piece, '\n');
    CountAppend(a.out, piece, '\n');
  }

  /** The text position the loop ends at lies inside the text. */
  lemma {:induction false} ApplyFoldPos(bank: string, text: string, ops: seq<Op>)
    requires AllParsed(ops)
    ensures var r := Fold(ApplyFn(bank, text), AppliedInit, ops);
            r.Ok? ==> 0 <= r.value.strPos <= |text|
  {
    ApplyFold(bank, text, ops);
  }

  lemma {:induction false} LineTotalDifference(ops: seq<Op>)
    requires NoNulls(ops)
    ensures LineTotal(ops, {Keep, Insert}) - LineTotal(ops, {Keep, Delete})
            == LineTotal(ops, {Insert}) - LineTotal(ops, {Delete})
  {
    if ops != [] {
      assert NoNulls(ops[..|ops| - 1]);
      LineTotalDifference(ops[..|ops| - 1]);
    }
  }

  /** What `applyToText` returns: the text grows by the inserted characters
      and shrinks by the deleted ones, and so does its number of newlines,
      since every op's newline count was checked against its span. */
  lemma {:induction false} ApplyToTextCounts(cs: string, text: string)
    requires ApplyToTextSpec(cs, text).Ok?
    ensures Unpack(cs).Ok? && |text| == Unpack(cs).value.oldLen
    ensures var st := ParseOps(Unpack(cs).value.ops);
            var out := ApplyToTextSpec(cs, text).value;
            && !st.fault
            && |out| == |text| + Total(st.ops, {Insert}) - Total(st.ops, {Delete})
            && Count(out, '\n') == Count(text, '\n') + LineTotal(st.ops, {Insert}) - LineTotal(st.ops, {Delete})
  {
    ApplyToTextSpecCases(cs, text);
    var c := Unpack(cs).value;
    var st := ParseOps(c.ops);
    var out := ApplyToTextSpec(cs, text).value;
    var r := ForOf(ApplyFn(c.charBank, text), AppliedInit, st);
    var a := r.value;
    assert !st.fault && AllParsed(st.ops);
    assert Fold(ApplyFn(c.charBank, text), AppliedInit, st.ops) == Ok(a);
    assert out == a.out + text[a.strPos..];
    hide *;
    ApplyFold(c.charBank, text, st.ops);
    AllParsedNoNulls(st.ops);
    TotalDifference(st.ops);
    LineTotalDifference(st.ops);
    assert text == text[..a.strPos] + text[a.strPos..];
    CountAppend(text[..a.strPos], text[a.strPos..], '\n');
    CountAppend(a.out, text[a.strPos..], '\n');
  }

  /** A changeset `checkRep` accepts turns a text of its old length into
      one of its new length, whenever it applies. */
  lemma {:induction false} ApplyToTextNewLen(cs: string, text: string)
    requires CheckRepSpec(cs).Ok? && ApplyToTextSpec(cs, text).Ok?
    ensures |ApplyToTextSpec(cs, text).value| == Unpack(cs).value.newLen
  {
    CheckRepSound(cs);
    ApplyToTextCounts(cs, text);
  }

  /** The identity changeset leaves every text of its length as it is. */
  lemma {:induction false} ApplyIdentity(n: nat, text: string)
    ensures |text| == n ==> ApplyToTextSpec(Identity(n), text) == Ok(text)
    ensures |text| != n ==> ApplyToTextSpec(Identity(n), text) == Err(MismatchedLength)
  {
    hide ScanOp, ParseOpsFrom, ScanHeader, Unpack, Identity, Pack;
    IdentityIsIdentity(n);
    ApplyNoOps(text);
    assert AppliedInit.out + text[AppliedInit.strPos..] == text;
  }

  lemma {:induction false} ApplyNoOps(text: string)
    ensures ForOf(ApplyFn("", text), AppliedInit, ParseOps("")) == Ok(AppliedInit)
  {
    assert ParseOps("") == Stream([], false);
    hide ScanOp, ParseOpsFrom;
  }

  /** `applyToText` throws what unpacking, the length check or the loop
      throws, and otherwise copies the rest of the text after the ops. */
  lemma {:induction false} ApplyToTextSpecCases(cs: string, text: string)
    ensures Unpack(cs).Err? ==> ApplyToTextSpec(cs, text) == Err(Unpack(cs).error)
    ensures Unpack(cs).Ok? && |text| != Unpack(cs).value.oldLen ==> ApplyToTextSpec(cs, text) == Err(MismatchedLength)
    ensures Unpack(cs).Ok? && |text| == Unpack(cs).value.oldLen ==>
              var c := Unpack(cs).value;
              var r := ForOf(ApplyFn(c.charBank, text), AppliedInit, ParseOps(c.ops));
              (r.Err? ==> ApplyToTextSpec(cs, text) == Err(r.error))
              && (r.Ok? ==> 0 <= r.value.strPos <= |text|
                            && ApplyToTextSpec(cs, text) == Ok(r.value.out + text[r.value.strPos..]))
  {
    if Unpack(cs).Ok? {
      var c := Unpack(cs).value;
      ApplyFoldPos(c.charBank, text, Visible(ParseOps(c.ops)));
    }
  }

  lemma {:induction false} LoopThrows(bank: string, text: string, ops: string, e: Error)
    requires ForOf(ApplyFn(bank, text), AppliedInit, ParseOps(ops)) == Err(e)
    ensures LoopResult(bank, text, ops) == Err(e)
  {
  }

  lemma {:induction false} LoopEnds(bank: string, text: string, ops: string, a: Applied)
    requires ForOf(ApplyFn(bank, text), AppliedInit, ParseOps(ops)) == Ok(a)
    ensures 0 <= a.strPos <= |text| && LoopResult(bank, text, ops) == Ok(a.out + text[a.strPos..])
  {
    ApplyFoldPos(bank, text, Visible(ParseOps(ops)));
  }

  lemma {:induction false} ApplyFoldSnoc(bank: string, text: string, done: seq<Op>, o: Op)
    ensures Fold(ApplyFn(bank, text), AppliedInit, done + [o])
            == (match Fold(ApplyFn(bank, text), AppliedInit, done)
                case Err(e) => Err(e) case Ok(a) => ApplyStep(bank, text, a, o))
  {
    FoldSnoc(ApplyFn(bank, text), AppliedInit, done, o);
  }

  /** One op of the loop, on the two iterators and the assembler. */
  method ApplyOp(o: Op, bankIter: StringIterator, strIter: StringIterator, assem: StringAssembler)
    returns (r: Outcome)
    requires Parsed(o) && bankIter.Valid() && strIter.Valid() && bankIter != strIter
    modifies bankIter, strIter, assem
    ensures bankIter.Valid() && strIter.Valid()
    ensures var want := ApplyStep(bankIter.str, strIter.str,
                                  Applied(old(bankIter.curIndex), old(strIter.curIndex), old(Join(assem.pieces))), o);
            if r.Pass? then want == Ok(Applied(bankIter.curIndex, strIter.curIndex, Join(assem.pieces)))
            else want == Err(r.error)
  {
    match o.opcode
    case Insert =>
      r := ApplyInsert(o, bankIter, strIter, assem);
    case Delete =>
      r := ApplyDelete(o, bankIter, strIter, assem);
    case Keep =>
      r := ApplyKeep(o, bankIter, strIter, assem);
  }

  /** An insert takes its text from the bank. */
  method ApplyInsert(o: Op, bankIter: StringIterator, strIter: StringIterator, assem: StringAssembler)
    returns (r: Outcome)
    requires Parsed(o) && bankIter.Valid() && strIter.Valid() && bankIter != strIter && o.opcode == Insert
    modifies bankIter, strIter, assem
    ensures bankIter.Valid() && strIter.Valid()
    ensures var want := ApplyStep(bankIter.str, strIter.str,
                                  Applied(old(bankIter.curIndex), old(strIter.curIndex), old(Join(assem.pieces))), o);
            if r.Pass? then want == Ok(Applied(bankIter.curIndex, strIter.curIndex, Join(assem.pieces)))
            else want == Err(r.error)
  {
    var piece := bankIter.Peek(o.chars);
    if piece.Err? {
      return Fail(piece.error);
    }
    if o.lines != Count(piece.value, '\n') {
      return Fail(NewlineCountWrong);
    }
    var taken := bankIter.Take(o.chars);
    JoinSnoc(assem.pieces, taken.value);
    assem.Append(taken.value);
    return Pass;
  }

  /** A delete skips text of the old document. */
  method ApplyDelete(o: Op, bankIter: StringIterator, strIter: StringIterator, assem: StringAssembler)
    returns (r: Outcome)
    requires Parsed(o) && bankIter.Valid() && strIter.Valid() && bankIter != strIter && o.opcode == Delete
    modifies bankIter, strIter, assem
    ensures bankIter.Valid() && strIter.Valid()
    ensures var want := ApplyStep(bankIter.str, strIter.str,
                                  Applied(old(bankIter.curIndex), old(strIter.curIndex), old(Join(assem.pieces))), o);
            if r.Pass? then want == Ok(Applied(bankIter.curIndex, strIter.curIndex, Join(assem.pieces)))
            else want == Err(r.error)
  {
    var piece := strIter.Peek(o.chars);
    if piece.Err? {
      return Fail(piece.error);
    }
    if o.lines != Count(piece.value, '\n') {
      return Fail(NewlineCountWrong);
    }
    var skipped := strIter.Skip(o.chars);
    return Pass;
  }

  /** A keep copies text of the old document. */
  method ApplyKeep(o: Op, bankIter: StringIterator, strIter: StringIterator, assem: StringAssembler)
    returns (r: Outcome)
    requires Parsed(o) && bankIter.Valid() && strIter.Valid() && bankIter != strIter && o.opcode == Keep
    modifies bankIter, strIter, assem
    ensures bankIter.Valid() && strIter.Valid()
    ensures var want := ApplyStep(bankIter.str, strIter.str,
                                  Applied(old(bankIter.curIndex), old(strIter.curIndex), old(Join(assem.pieces))), o);
            if r.Pass? then want == Ok(Applied(bankIter.curIndex, strIter.curIndex, Join(assem.pieces)))
            else want == Err(r.error)
  {
    var piece := strIter.Peek(o.chars);
    if piece.Err? {
      return Fail(piece.error);
    }
    if o.lines != Count(piece.value, '\n') {
      return Fail(NewlineCountWrong);
    }
    var taken := strIter.Take(o.chars);
    JoinSnoc(assem.pieces, taken.value);
    assem.Append(taken.value);
    return Pass;
  }

  /** `ApplyOp` as one more step of the fold over the ops read so far. */
  method FoldOp(o: Op, bankIter: StringIterator, strIter: StringIterator, assem: StringAssembler,
                ghost done: seq<Op>) returns (r: Outcome)
    requires Parsed(o) && bankIter.Valid() && strIter.Valid() && bankIter != strIter
    requires Fold(ApplyFn(bankIter.str, strIter.str), AppliedInit, done)
             == Ok(Applied(bankIter.curIndex, strIter.curIndex, Join(assem.pieces)))
    modifies bankIter, strIter, assem
    ensures bankIter.Valid() && strIter.Valid()
    ensures Fold(ApplyFn(bankIter.str, strIter.str), AppliedInit, done + [o])
            == if r.Pass? then Ok(Applied(bankIter.curIndex, strIter.curIndex, Join(assem.pieces)))
               else Err(r.error)
  {
    ApplyFoldSnoc(bankIter.str, strIter.str, done, o);
    r := ApplyOp(o, bankIter, strIter, assem);
  }

  /** What the loop of `applyToText` leaves: the error a step or the op
      stream throws, or the output followed by the text not yet read. */
  function LoopResult(bank: string, text: string, ops: string): (r: Result<string>)
  {
    var a :- ForOf(ApplyFn(bank, text), AppliedInit, ParseOps(ops));
    ApplyFoldPos(bank, text, Visible(ParseOps(ops)));
    Ok(a.out + text[a.strPos..])
  }

  /** `applyToText(cs, str)`. */
  method ApplyToText(cs: string, text: string) returns (r: Result<string>)
    ensures r == ApplyToTextSpec(cs, text)
  {
    var u := Unpack(cs);
    if u.Err? {
      return Err(u.error);
    }
    var c := u.value;
    if |text| != c.oldLen {
      return Err(MismatchedLength);
    }
    r := ApplyOps(c.charBank, text, c.ops);
  }

  /** The loop of `applyToText`: the ops read from the char bank and the
      text through two string iterators and write to a string assembler. */
  method ApplyOps(bank: string, text: string, ops: string) returns (r: Result<string>)
    ensures r == LoopResult(bank, text, ops)
  {
    var bankIter := new StringIterator(bank);
    var strIter := new StringIterator(text);
    var assem := new StringAssembler();
    assert Join(assem.pieces) == "";
    var res := RunOps(bankIter, strIter, assem, ops);
    if res.Fail? {
      LoopThrows(bank, text, ops, res.error);
      return Err(res.error);
    }
    ghost var a := Applied(bankIter.curIndex, strIter.curIndex, Join(assem.pieces));
    LoopEnds(bank, text, ops, a);
    hide *;
    var rest := strIter.Take(strIter.Remaining());
    JoinSnoc(assem.pieces, rest.value);
    assem.Append(rest.value);
    var out := assem.ToString();
    assert out == a.out + text[a.strPos..];
    return Ok(out);
  }

  /** The op loop itself, from the start of both strings: it fails with
      the error the fold throws, or leaves the iterators and the assembler
      where the fold ends. */
  method RunOps(bankIter: StringIterator, strIter: StringIterator, assem: StringAssembler, ops: string)
    returns (r: Outcome)
    requires bankIter.Valid() && strIter.Valid() && bankIter != strIter
    requires bankIter.curIndex == 0 && strIter.curIndex == 0 && Join(assem.pieces) == ""
    modifies bankIter, strIter, assem
    ensures bankIter.Valid() && strIter.Valid()
    ensures var want := ForOf(ApplyFn(bankIter.str, strIter.str), AppliedInit, ParseOps(ops));
            if r.Pass? then want == Ok(Applied(bankIter.curIndex, strIter.curIndex, Join(assem.pieces)))
            else want == Err(r.error)
  {
    ghost var st := ParseOps(ops);
    ghost var step := ApplyFn(bankIter.str, strIter.str);
    assert Fold(step, AppliedInit, []) == Ok(Applied(bankIter.curIndex, strIter.curIndex, Join(assem.pieces)));
    assert AllParsed(st.ops) && (OpenStream(st).Fail? ==> Visible(st) == [] && st.fault);
    hide *;

    var start := OpIter.Open(ops);
    if start.Err? {
      ForOfEnd(step, AppliedInit, st, []);
      return Fail(start.error);
    }
    var it := start.value;
    ghost var done: seq<Op> := [];
    while it.HasNext()
      invariant it.Valid() && it.opsStr == ops && bankIter.Valid() && strIter.Valid()
      invariant done + it.rest.ops == st.ops && it.rest.fault == st.fault && AllParsed(it.rest.ops)
      invariant Fold(step, AppliedInit, done) == Ok(Applied(bankIter.curIndex, strIter.curIndex, Join(assem.pieces)))
      decreases |it.rest.ops|
    {
      ghost var before := it.rest;
      var next := it.Next();
      if next.Err? {
        ForOfThrows(step, AppliedInit, st, done, before);
        return Fail(next.error);
      }
      var o := next.value;
      StreamAdvance(st, done, before, o, it.rest);
      var res := FoldOp(o, bankIter, strIter, assem, done);
      if res.Fail? {
        ForOfStep(step, AppliedInit, st, done, o, it.rest.ops);
        return res;
      }
      done := done + [o];
    }
    assert done == st.ops && !st.fault;
    ForOfEnd(step, AppliedInit, st, done);
    return Pass;
  }
}
