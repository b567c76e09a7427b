/** `joinAttributionLines` and `splitAttributionLines` (Changeset.js lines
    1335-1378): an attribution merged from one op string per line, and an
    attribution cut into one op string per line of its text. */
module AttributionLines {
  import opened Results
  import opened Ops
  import opened Texts
  import opened Codec
  import opened OpIters
  import opened Assemblers
  import opened Replays
  import Mutators

  // ---------------------------------------------------------------- join

  /** The body of the inner loop of `joinAttributionLines`: `assem.append(op)`,
      which never throws. */
  function MergeStep(st: MergeState, op: Op): Result<MergeState> {
    Ok(MergeAppend(st, op))
  }

  /** The merging assembler once the ops of every line are appended, line
      after line; a line whose ops end in the error token throws. */
  function JoinFrom(alines: seq<string>): (r: Result<MergeState>)
    ensures r.Ok? ==> NoNulls(r.value.out)
    decreases |alines|
  {
    if alines == [] then Ok(MergeInit)
    else
      var st :- JoinFrom(alines[..|alines| - 1]);
      var last := ParseOps(alines[|alines| - 1]);
      ForOfOk(MergeStep, st, last);
      FoldMerge(st, Visible(last));
      ForOf(MergeStep, st, last)
  }

  /** `joinAttributionLines(theAlines)`. */
  function JoinAttributionLinesSpec(alines: seq<string>): Result<string> {
    var st :- JoinFrom(alines);
    Ok(OpsToString(MergeOutput(st)))
  }

  /** Every op of every line, in order, and whether some line ends in the
      error token. */
  function LinesOps(alines: seq<string>): (r: Stream)
    ensures AllParsed(r.ops)
    decreases |alines|
  {
    if alines == [] then Stream([], false)
    else
      var front := LinesOps(alines[..|alines| - 1]);
      var last := ParseOps(alines[|alines| - 1]);
      AllParsedAppend(front.ops, last.ops);
      Stream(front.ops + last.ops, front.fault || last.fault)
  }

  /** Appending ops one by one never throws. */
  lemma {:induction false} FoldMerge(st: MergeState, ops: seq<Op>)
    ensures Fold(MergeStep, st, ops) == Ok(MergeFrom(st, ops))
    decreases |ops|
  {
    if ops != [] {
      FoldMerge(st, ops[..|ops| - 1]);
    }
  }

  /** Appending two lists is appending the first, then the second. */
  lemma {:induction false} MergeFromConcat(st: MergeState, a: seq<Op>, b: seq<Op>)
    ensures MergeFrom(st, a + b) == MergeFrom(MergeFrom(st, a), b)
    decreases |b|
  {
    if b == [] {
      assert a + b == a;
    } else {
      MergeFromConcat(st, a, b[..|b| - 1]);
      assert (a + b)[..|a + b| - 1] == a + b[..|b| - 1];
    }
  }

  /** Merging ops the decoder produces keeps the assembler's state made of
      such ops. */
  lemma {:induction false} MergeFromParsed(st: MergeState, ops: seq<Op>)
    requires MergeParsed(st) && AllParsed(ops)
    ensures MergeParsed(MergeFrom(st, ops))
    decreases |ops|
  {
    if ops != [] {
      var front := ops[..|ops| - 1];
      assert AllParsed(front) && Parsed(ops[|ops| - 1]);
      MergeFromParsed(st, front);
      MergeAppendParsed(MergeFrom(st, front), ops[|ops| - 1]);
    }
  }

  /** Joining the lines is merging all their ops in one go: it throws
      exactly when some line ends in the error token, and otherwise leaves
      the assembler where appending every op of every line leaves it. */
  lemma {:induction false} JoinMerges(alines: seq<string>)
    ensures JoinFrom(alines).Err? <==> LinesOps(alines).fault
    ensures JoinFrom(alines).Err? ==> JoinFrom(alines).error == ErrorOpcode
    ensures JoinFrom(alines).Ok? ==> JoinFrom(alines).value == MergeFrom(MergeInit, LinesOps(alines).ops)
    decreases |alines|
  {
    if alines != [] {
      var front := alines[..|alines| - 1];
      var last := ParseOps(alines[|alines| - 1]);
      JoinMerges(front);
      if JoinFrom(front).Ok? {
        var st := JoinFrom(front).value;
        ForOfOk(MergeStep, st, last);
        FoldMerge(st, Visible(last));
        if !last.fault {
          MergeFromConcat(MergeInit, LinesOps(front).ops, last.ops);
        }
      }
    }
  }

  /** What `joinAttributionLines` returns decodes to the merged ops of all
      the lines, and merging lost no character and no newline. */
  lemma {:induction false} JoinTotals(alines: seq<string>)
    requires JoinAttributionLinesSpec(alines).Ok?
    ensures var ops := LinesOps(alines).ops;
            var out := MergeOutput(MergeFrom(MergeInit, ops));
            && AllOps(JoinAttributionLinesSpec(alines).value) == Ok(out)
            && Chars(out) == Chars(Positive(ops)) && Lines(out) == Lines(Positive(ops))
  {
    var ops := LinesOps(alines).ops;
    JoinMerges(alines);
    var st := MergeFrom(MergeInit, ops);
    assert MergeParsed(MergeInit) by {
      assert MergeInit.out == [];
    }
    MergeFromParsed(MergeInit, ops);
    MergeOutputParsed(st);
    AllOpsRoundTrip(MergeOutput(st));
    MergeRunTotals(ops);
  }

  /** `joinAttributionLines`: a merging assembler fed every op of every
      line, through one `OpIter` per line. */
  method JoinAttributionLines(alines: seq<string>) returns (r: Result<string>)
    ensures r == JoinAttributionLinesSpec(alines)
  {
    hide *;
    JoinSpecIs(alines);
    var assem := new MergingOpAssembler();
    var i := 0;
    assert alines[..0] == [];
    JoinFromNone();
    while i < |alines|
      invariant 0 <= i <= |alines|
      invariant assem.Valid() && fresh(assem) && fresh(assem.assem)
      invariant JoinFrom(alines[..i]) == Ok(assem.State())
    {
      JoinFromSnoc(alines, i);
      var res := AppendLine(assem, alines[i]);
      if res.Fail? {
        JoinErrLater(alines, i + 1);
        return Err(res.error);
      }
      i := i + 1;
    }
    assert alines[..i] == alines;
    var s := assem.ToString();
    return Ok(s);
  }

  lemma {:induction false} JoinFromNone()
    ensures JoinFrom([]) == Ok(MergeInit)
  {
  }

  /** `JoinFrom` over one more line. */
  lemma {:induction false} JoinFromSnoc(alines: seq<string>, i: nat)
    requires i < |alines|
    ensures JoinFrom(alines[..i + 1])
            == match JoinFrom(alines[..i])
               case Err(e) => Err(e)
               case Ok(st) => ForOf(MergeStep, st, ParseOps(alines[i]))
  {
    assert alines[..i + 1][..i] == alines[..i] && alines[..i + 1][i] == alines[i];
  }

  lemma {:induction false} JoinSpecIs(alines: seq<string>)
    ensures JoinAttributionLinesSpec(alines)
            == match JoinFrom(alines) case Err(e) => Err(e) case Ok(st) => Ok(OpsToString(MergeOutput(st)))
  {
  }

  /** Once a line throws, the whole join throws the same. */
  lemma {:induction false} JoinErrLater(alines: seq<string>, i: nat)
    requires i <= |alines| && JoinFrom(alines[..i]).Err?
    ensures JoinFrom(alines) == JoinFrom(alines[..i])
    decreases |alines| - i
  {
    if i < |alines| {
      assert alines[..i + 1][..i] == alines[..i];
      JoinErrLater(alines, i + 1);
    } else {
      assert alines[..i] == alines;
    }
  }

  /** `assem.append(op)` as one more step of the fold over the ops read so far. */
  method MergeFoldOp(assem: MergingOpAssembler, ghost init: MergeState, ghost done: seq<Op>, o: Op)
    requires assem.Valid() && Fold(MergeStep, init, done) == Ok(assem.State())
    modifies assem, assem.assem
    ensures assem.Valid() && Fold(MergeStep, init, done + [o]) == Ok(assem.State())
  {
    FoldSnoc(MergeStep, init, done, o);
    assem.Append(o);
  }

  /** `for (const op of new OpIter(aline)) assem.append(op);` */
  method AppendLine(assem: MergingOpAssembler, aline: string) returns (r: Outcome)
    requires assem.Valid()
    modifies assem, assem.assem
    ensures assem.Valid()
    ensures var want := ForOf(MergeStep, old(assem.State()), ParseOps(aline));
            if r.Pass? then want == Ok(assem.State()) else want == Err(r.error)
  {
    ghost var st := ParseOps(aline);
    ghost var init := assem.State();
    assert Fold(MergeStep, init, []) == Ok(init);
    assert AllParsed(st.ops) && (OpenStream(st).Fail? ==> Visible(st) == [] && st.fault);
    hide *;
    var start := OpIter.Open(aline);
    if start.Err? {
      ForOfEnd(MergeStep, init, st, []);
      return Fail(start.error);
    }
    var it := start.value;
    ghost var done: seq<Op> := [];
    while it.HasNext()
      invariant it.Valid() && it.opsStr == aline && assem.Valid()
      invariant done + it.rest.ops == st.ops && it.rest.fault == st.fault && AllParsed(it.rest.ops)
      invariant Fold(MergeStep, init, done) == Ok(assem.State())
      decreases |it.rest.ops|
    {
      ghost var before := it.rest;
      var next := it.Next();
      if next.Err? {
        ForOfThrows(MergeStep, init, st, done, before);
        return Fail(next.error);
      }
      var o := next.value;
      StreamAdvance(st, done, before, o, it.rest);
      MergeFoldOp(assem, init, done, o);
      done := done + [o];
    }
    assert done == st.ops && !st.fault;
    ForOfEnd(MergeStep, init, st, done);
    return Pass;
  }

  // ---------------------------------------------------------------- split

  /** `text.indexOf(c, from)`: the search starts at `from` clamped into the
      text; -1 when no `c` follows. */
  function IndexOfFrom(s: string, c: char, from: int): (k: int)
    ensures -1 <= k < |s|
    ensures k >= 0 ==> Clamp(from, |s|) <= k && s[k] == c
  {
    var k := IndexFrom(s, c, Clamp(from, |s|));
    if k == |s| then -1 else k
  }

  /** No `c` lies between where the search starts and what it finds. */
  lemma {:induction false} IndexOfFromFirst(s: string, c: char, from: int, j: int)
    requires Clamp(from, |s|) <= j < (if IndexOfFrom(s, c, from) < 0 then |s| else IndexOfFrom(s, c, from))
    ensures s[j] != c
  {
    IndexFromFirst(s, c, Clamp(from, |s|), j);
  }

  /** What `splitAttributionLines` keeps between ops: its assembler, the
      lines written so far and the position in the text. */
  datatype Splitting = Splitting(assem: MergeState, lines: seq<string>, pos: int)

  /** Only states whose written ops are all real ops are reached. */
  type Split = s: Splitting | NoNulls(s.assem.out) witness Splitting(MergeInit, [], 0)

  const SplitInit: Split := Splitting(MergeInit, [], 0)

  /** The inner `appendOp(op)`: the op is appended, and one with a newline
      ends the line: the line's ops are written out and the assembler is
      cleared. */
  function PushOp(s: Split, op: Op): (r: Split)
    ensures |r.lines| == |s.lines| + (if op.lines > 0 then 1 else 0)
    ensures r.lines[..|s.lines|] == s.lines
  {
    var m := MergeAppend(s.assem, op);
    if op.lines > 0 then
      var line := OpsToString(MergeOutput(m));
      Splitting(MergeClear(MergeFlush(m, false)), s.lines + [line], s.pos + op.chars)
    else Splitting(m, s.lines, s.pos + op.chars)
  }

  /** The `while (numLines > 1)` loop: each turn cuts a piece of the op up
      to the next newline of the text, and throws when no newline is left.
      The result is the state and the characters not yet cut. */
  function SplitLoop(text: string, s: Split, op: Op, numChars: int, numLines: int): Result<(Split, int)>
    decreases numLines
  {
    if numLines <= 1 then Ok((s, numChars))
    else
      var newlineEnd := IndexOfFrom(text, '\n', s.pos) + 1;
      if newlineEnd <= 0 then Err(BadAttributionLine)
      else
        var piece := op.(chars := newlineEnd - s.pos, lines := 1);
        SplitLoop(text, PushOp(s, piece), op, numChars - piece.chars, numLines - 1)
  }

  /** The body of the loop over the attribution's ops: the pieces with one
      newline each, then what is left (with the last newline, if the op has
      any). */
  function SplitStep(text: string, s: Split, op: Op): Result<Split> {
    var p :- SplitLoop(text, s, op, op.chars, op.lines);
    var last := if op.lines >= 1 then op.(chars := p.1, lines := 1) else op;
    Ok(PushOp(p.0, last))
  }

  function SplitFn(text: string): (Split, Op) -> Result<Split> {
    (s, op) => SplitStep(text, s, op)
  }

  lemma {:induction false} SplitFnIs(text: string, s: Split, op: Op)
    ensures SplitFn(text)(s, op) == SplitStep(text, s, op)
  {
  }

  /** `splitAttributionLines(attrOps, text)`: the lines written; ops after
      the last newline are left in the assembler and not returned. */
  function SplitAttributionLinesSpec(attrOps: string, text: string): Result<seq<string>> {
    var s :- ForOf(SplitFn(text), SplitInit, ParseOps(attrOps));
    Ok(s.lines)
  }

  /** `splitAttributionLines(attrOps, text)`: a loop over the ops of
      `attrOps`, each cut at the newlines of `text` and handed to
      `appendOp`. */
  method SplitAttributionLines(attrOps: string, text: string) returns (r: Result<seq<string>>)
    ensures r == SplitAttributionLinesSpec(attrOps, text)
  {
    var assem := new MergingOpAssembler();
    var lines: seq<string> := [];
    var pos := 0;
    ghost var st := ParseOps(attrOps);
    ghost var step := SplitFn(text);
    assert Fold(step, SplitInit, []) == Ok(SplitInit);
    assert AllParsed(st.ops) && (OpenStream(st).Fail? ==> Visible(st) == [] && st.fault);
    hide *;
    var start := OpIter.Open(attrOps);
    if start.Err? {
      ForOfEnd(step, SplitInit, st, []);
      return Err(start.error);
    }
    var it := start.value;
    ghost var done: seq<Op> := [];
    while it.HasNext()
      invariant it.Valid() && it.opsStr == attrOps && assem.Valid() && fresh(assem) && fresh(assem.assem)
      invariant done + it.rest.ops == st.ops && it.rest.fault == st.fault && AllParsed(it.rest.ops)
      invariant Fold(step, SplitInit, done) == Ok(Splitting(assem.State(), lines, pos))
      decreases |it.rest.ops|
    {
      ghost var before := it.rest;
      var next := it.Next();
      if next.Err? {
        ForOfThrows(step, SplitInit, st, done, before);
        return Err(next.error);
      }
      var o := next.value;
      StreamAdvance(st, done, before, o, it.rest);
      var res := SplitFoldOp(assem, lines, pos, text, done, o);
      if res.Err? {
        ForOfStep(step, SplitInit, st, done, o, it.rest.ops);
        return Err(res.error);
      }
      lines, pos := res.value.0, res.value.1;
      done := done + [o];
    }
    assert done == st.ops && !st.fault;
    ForOfEnd(step, SplitInit, st, done);
    return Ok(lines);
  }

  /** `SplitOp` as one more step of the fold over the ops read so far. */
  method SplitFoldOp(assem: MergingOpAssembler, lines: seq<string>, pos: int, text: string,
                     ghost done: seq<Op>, o: Op) returns (r: Result<(seq<string>, int)>)
    requires assem.Valid() && Fold(SplitFn(text), SplitInit, done) == Ok(Splitting(assem.State(), lines, pos))
    modifies assem, assem.assem
    ensures assem.Valid()
    ensures Fold(SplitFn(text), SplitInit, done + [o])
            == if r.Ok? then Ok(Splitting(assem.State(), r.value.0, r.value.1)) else Err(r.error)
  {
    FoldSnoc(SplitFn(text), SplitInit, done, o);
    r := SplitOp(assem, lines, pos, text, o);
  }

  lemma {:induction false} StateNoNulls(assem: MergingOpAssembler)
    requires assem.Valid()
    ensures NoNulls(assem.State().out)
  {
  }

  /** One op of the loop: the `while (numLines > 1)` cuts, then the rest. */
  method SplitOp(assem: MergingOpAssembler, lines: seq<string>, pos: int, text: string, op: Op)
    returns (r: Result<(seq<string>, int)>)
    requires assem.Valid()
    modifies assem, assem.assem
    ensures assem.Valid()
    ensures var want := SplitStep(text, Splitting(old(assem.State()), lines, pos), op);
            if r.Ok? then want == Ok(Splitting(assem.State(), r.value.0, r.value.1)) else want == Err(r.error)
  {
    hide *;
    StateNoNulls(assem);
    ghost var s0 := Splitting(assem.State(), lines, pos);
    var numChars := op.chars;
    var numLines := op.lines;
    var cur := op;
    var ls, p := lines, pos;
    while numLines > 1
      invariant assem.Valid() && NoNulls(assem.State().out)
      invariant SplitLoop(text, s0, op, op.chars, op.lines)
                == SplitLoop(text, Splitting(assem.State(), ls, p), op, numChars, numLines)
      invariant cur.opcode == op.opcode && cur.attribs == op.attribs
      invariant op.lines <= 1 ==> cur == op && numLines == op.lines && numChars == op.chars
      invariant op.lines > 1 ==> numLines >= 1
      decreases numLines
    {
      var newlineEnd := IndexOfFrom(text, '\n', p) + 1;
      if newlineEnd <= 0 {
        SplitLoopTurn(text, Splitting(assem.State(), ls, p), op, numChars, numLines);
        SplitStepIs(text, s0, op);
        return Err(BadAttributionLine);
      }
      cur := cur.(chars := newlineEnd - p, lines := 1);
      SplitLoopTurn(text, Splitting(assem.State(), ls, p), op, numChars, numLines);
      ls, p := AppendOp(assem, ls, p, cur);
      StateNoNulls(assem);
      numChars := numChars - cur.chars;
      numLines := numLines - cur.lines;
    }
    if numLines == 1 {
      cur := cur.(chars := numChars, lines := 1);
    }
    SplitLoopTurn(text, Splitting(assem.State(), ls, p), op, numChars, numLines);
    SplitStepIs(text, s0, op);
    ls, p := AppendOp(assem, ls, p, cur);
    return Ok((ls, p));
  }

  /** One turn of `SplitLoop`, and its end. */
  lemma {:induction false} SplitLoopTurn(text: string, s: Split, op: Op, numChars: int, numLines: int)
    ensures numLines <= 1 ==> SplitLoop(text, s, op, numChars, numLines) == Ok((s, numChars))
    ensures numLines > 1 ==>
              var newlineEnd := IndexOfFrom(text, '\n', s.pos) + 1;
              var piece := op.(chars := newlineEnd - s.pos, lines := 1);
              SplitLoop(text, s, op, numChars, numLines)
              == if newlineEnd <= 0 then Err(BadAttributionLine)
                 else SplitLoop(text, PushOp(s, piece), op, numChars - piece.chars, numLines - 1)
  {
    hide PushOp, IndexOfFrom, MergeAppend, MergeFlush, MergeOutput, MergeClear, OpsToString;
  }

  /** `SplitStep` is the loop, then the last piece. */
  lemma {:induction false} SplitStepIs(text: string, s: Split, op: Op)
    ensures var l := SplitLoop(text, s, op, op.chars, op.lines);
            SplitStep(text, s, op)
            == match l
               case Err(e) => Err(e)
               case Ok(p) => Ok(PushOp(p.0, if op.lines >= 1 then op.(chars := p.1, lines := 1) else op))
  {
  }

  /** The closure `appendOp(op)`. */
  method AppendOp(assem: MergingOpAssembler, lines: seq<string>, pos: int, op: Op)
    returns (lines2: seq<string>, pos2: int)
    requires assem.Valid()
    modifies assem, assem.assem
    ensures assem.Valid()
    ensures Splitting(assem.State(), lines2, pos2) == PushOp(Splitting(old(assem.State()), lines, pos), op)
  {
    assem.Append(op);
    lines2 := lines;
    if op.lines > 0 {
      var line := assem.ToString();
      lines2 := lines + [line];
      assem.Clear();
    }
    pos2 := pos + op.chars;
  }

  // ---------------------------------------------------------------- split: properties

  /** The number of lines written grows by one per piece the loop cuts. */
  lemma {:induction false} SplitLoopCount(text: string, s: Split, op: Op, numChars: int, numLines: int)
    requires SplitLoop(text, s, op, numChars, numLines).Ok?
    ensures |SplitLoop(text, s, op, numChars, numLines).value.0.lines|
            == |s.lines| + (if numLines > 1 then numLines - 1 else 0)
    decreases numLines
  {
    hide *;
    SplitLoopTurn(text, s, op, numChars, numLines);
    if numLines > 1 {
      var newlineEnd := IndexOfFrom(text, '\n', s.pos) + 1;
      var piece := op.(chars := newlineEnd - s.pos, lines := 1);
      SplitLoopCount(text, PushOp(s, piece), op, numChars - piece.chars, numLines - 1);
    }
  }

  /** An op with `L` newlines ends `L` lines. */
  lemma {:induction false} SplitStepCount(text: string, s: Split, op: Op)
    requires op.lines >= 0 && SplitStep(text, s, op).Ok?
    ensures |SplitStep(text, s, op).value.lines| == |s.lines| + op.lines
  {
    SplitLoopCount(text, s, op, op.chars, op.lines);
  }

  lemma {:induction false} SplitFoldCount(text: string, ops: seq<Op>)
    requires AllParsed(ops) && Fold(SplitFn(text), SplitInit, ops).Ok?
    ensures |Fold(SplitFn(text), SplitInit, ops).value.lines| == LineTotal(ops, {Keep, Insert, Delete})
    decreases |ops|
  {
    if ops != [] {
      hide *;
      var front := ops[..|ops| - 1];
      var op := ops[|ops| - 1];
      AllParsedLast(ops);
      FoldSnoc(SplitFn(text), SplitInit, front, op);
      assert ops == front + [op];
      SplitFoldCount(text, front);
      var s := Fold(SplitFn(text), SplitInit, front).value;
      SplitFnIs(text, s, op);
      SplitStepCount(text, s, op);
      LineTotalSnoc(front, op, {Keep, Insert, Delete});
    }
  }

  /** `splitAttributionLines` returns one line per newline of the
      attribution, whatever the text. */
  lemma {:induction false} SplitCount(attrOps: string, text: string)
    requires SplitAttributionLinesSpec(attrOps, text).Ok?
    ensures |SplitAttributionLinesSpec(attrOps, text).value| == LineTotal(ParseOps(attrOps).ops, {Keep, Insert, Delete})
  {
    var st := ParseOps(attrOps);
    ForOfOk(SplitFn(text), SplitInit, st);
    SplitFoldCount(text, st.ops);
  }

  // ---------------------------------------------------------------- split: against the text

  /** One line of a text: it ends with a newline and holds no other. */
  predicate LineOfText(u: string) {
    u != [] && u[|u| - 1] == '\n' && forall j :: 0 <= j < |u| - 1 ==> u[j] != '\n'
  }

  /** A line is a piece of its own for `splitTextLines`. */
  lemma {:induction false} TextLinesOne(u: string)
    requires LineOfText(u)
    ensures Mutators.TextLines(u) == [u]
    decreases |u|
  {
    var t := u[1..];
    if |u| > 1 {
      assert LineOfText(t) by {
        forall j | 0 <= j < |t| - 1 ensures t[j] != '\n' {
          assert t[j] == u[j + 1];
        }
      }
      TextLinesOne(t);
      assert u[0] != '\n';
      assert [u[0]] + t == u;
    } else {
      assert Mutators.TextLines(t) == [];
      assert [u[0]] == u;
    }
  }

  /** `splitTextLines` takes the first character on its own, or glues it
      to the first piece of the rest. */
  lemma {:induction false} TextLinesCons(text: string)
    requires text != []
    ensures var rest := Mutators.TextLines(text[1..]);
            Mutators.TextLines(text)
            == if text[0] == '\n' || rest == [] then [[text[0]]] + rest else [[text[0]] + rest[0]] + rest[1..]
  {
  }

  lemma {:induction false} TextLinesNone()
    ensures Mutators.TextLines([]) == []
  {
  }

  /** After text that ends a line, a line of text is one more piece. */
  lemma {:induction false} TextLinesAppend(t: string, u: string)
    requires t == [] || t[|t| - 1] == '\n'
    requires LineOfText(u)
    ensures Mutators.TextLines(t + u) == Mutators.TextLines(t) + [u]
    decreases |t|
  {
    hide *;
    if t == [] {
      assert t + u == u;
      TextLinesOne(u);
      TextLinesNone();
    } else {
      var c, t' := t[0], t[1..];
      assert (t + u)[0] == c && (t + u)[1..] == t' + u;
      assert t' == [] || t'[|t'| - 1] == '\n';
      TextLinesAppend(t', u);
      TextLinesCons(t + u);
      TextLinesCons(t);
      var rest := Mutators.TextLines(t');
      if c != '\n' {
        assert t' != [];
        TextLinesCons(t');
        assert rest != [];
        assert (rest + [u])[0] == rest[0] && (rest + [u])[1..] == rest[1..] + [u];
      }
    }
  }

  /** `line` decodes to ops covering `t`, with one newline among them. */
  ghost predicate WroteLine(line: string, t: string) {
    AllOps(line).Ok? && Chars(AllOps(line).value) == |t| && Lines(AllOps(line).value) == 1
  }

  ghost predicate WroteLines(lines: seq<string>, ts: seq<string>) {
    |lines| == |ts| && forall i :: 0 <= i < |lines| ==> WroteLine(lines[i], ts[i])
  }

  /** Where the line being assembled starts in the text. */
  function LineStart(s: Splitting): int {
    s.pos - PendingChars(s.assem)
  }

  /** The split so far agrees with the text: one line written per line of
      the text before `LineStart`, and the assembler holds the newline-free
      rest up to `pos`. */
  ghost predicate Follows(text: string, s: Split) {
    var ls := LineStart(s);
    && MergeParsed(s.assem) && PendingLines(s.assem) == 0
    && 0 <= ls <= s.pos <= |text|
    && (ls == 0 || text[ls - 1] == '\n')
    && Count(text[ls..s.pos], '\n') == 0
    && WroteLines(s.lines, Mutators.TextLines(text[..ls]))
  }

  /** An op with no newline over newline-free text extends the line. */
  lemma {:induction false} PushInLine(text: string, s: Split, op: Op)
    requires Follows(text, s) && op.opcode != Null && op.chars >= 0 && op.lines == 0
    requires s.pos + op.chars <= |text| && Count(text[s.pos..s.pos + op.chars], '\n') == 0
    ensures Follows(text, PushOp(s, op)) && PushOp(s, op).pos == s.pos + op.chars
  {
    hide Follows, PushOp, MergeAppend, MergeFlush, MergeOutput, OpsToString, MergeClear, Mutators.TextLines, WroteLines, Count;
    FollowsIs(text, s);
    PushOpInLine(s, op);
    var ls, e := LineStart(s), s.pos + op.chars;
    MergeAppendTotals(s.assem, op);
    MergeAppendParsed(s.assem, op);
    assert text[ls..e] == text[ls..s.pos] + text[s.pos..e];
    CountAppend(text[ls..s.pos], text[s.pos..e], '\n');
    FollowsIs(text, PushOp(s, op));
  }

  /** `PushOp` of an op without a newline. */
  lemma {:induction false} PushOpInLine(s: Split, op: Op)
    requires op.lines == 0
    ensures PushOp(s, op) == Splitting(MergeAppend(s.assem, op), s.lines, s.pos + op.chars)
  {
  }

  /** The line a newline op closes decodes to the ops the assembler held
      and that op, merged: all their characters and one newline. */
  lemma {:induction false} LineWritten(m0: MergeState, op: Op)
    requires MergeParsed(m0) && PendingLines(m0) == 0 && Parsed(op) && op.chars > 0 && op.lines == 1
    ensures var out := MergeOutput(MergeAppend(m0, op));
            && AllOps(OpsToString(out)) == Ok(out)
            && Chars(out) == PendingChars(m0) + op.chars && Lines(out) == 1
  {
    var m := MergeAppend(m0, op);
    MergeAppendTotals(m0, op);
    MergeAppendParsed(m0, op);
    MergeFlushTotals(m);
    MergeOutputParsed(m);
    AllOpsRoundTrip(MergeOutput(m));
  }

  /** Text up to the end of a line is the text before it and that line. */
  lemma {:induction false} LineCut(text: string, ls: nat, q: nat, e: nat)
    requires ls <= q < e <= |text| && (ls == 0 || text[ls - 1] == '\n') && text[e - 1] == '\n'
    requires Count(text[ls..q], '\n') == 0 && Count(text[q..e - 1], '\n') == 0
    ensures Mutators.TextLines(text[..e]) == Mutators.TextLines(text[..ls]) + [text[ls..e]]
  {
    var u := text[ls..e];
    assert LineOfText(u) by {
      CountNone(text[ls..q], '\n');
      CountNone(text[q..e - 1], '\n');
      forall j | 0 <= j < |u| - 1 ensures u[j] != '\n' {
        if ls + j < q {
          assert u[j] == text[ls..q][j];
        } else {
          assert u[j] == text[q..e - 1][ls + j - q];
        }
      }
    }
    assert text[..ls] + u == text[..e];
    TextLinesAppend(text[..ls], u);
  }

  /** A cleared assembler holds nothing. */
  lemma {:induction false} ClearedEmpty(m: MergeState)
    ensures var c := MergeClear(m);
            MergeParsed(c) && PendingChars(c) == 0 && PendingLines(c) == 0
  {
    assert MergeClear(m).out == [];
  }

  /** `Follows`, spelled out. */
  lemma {:induction false} FollowsIs(text: string, s: Split)
    ensures LineStart(s) == s.pos - PendingChars(s.assem)
    ensures Follows(text, s)
            <==> var ls := s.pos - PendingChars(s.assem);
                 && MergeParsed(s.assem) && PendingLines(s.assem) == 0
                 && 0 <= ls <= s.pos <= |text|
                 && (ls == 0 || text[ls - 1] == '\n')
                 && Count(text[ls..s.pos], '\n') == 0
                 && WroteLines(s.lines, Mutators.TextLines(text[..ls]))
  {
  }

  /** `PushOp` of an op with a newline. */
  lemma {:induction false} PushOpLine(s: Split, op: Op)
    requires op.lines > 0
    ensures var m := MergeAppend(s.assem, op);
            PushOp(s, op) == Splitting(MergeClear(MergeFlush(m, false)), s.lines + [OpsToString(MergeOutput(m))], s.pos + op.chars)
  {
  }

  /** One more line written for one more line of text. */
  lemma {:induction false} WroteLinesSnoc(lines: seq<string>, ts: seq<string>, line: string, t: string)
    requires WroteLines(lines, ts) && WroteLine(line, t)
    ensures WroteLines(lines + [line], ts + [t])
  {
    var l2, t2 := lines + [line], ts + [t];
    forall i | 0 <= i < |l2| ensures WroteLine(l2[i], t2[i]) {
      if i < |lines| {
        assert l2[i] == lines[i] && t2[i] == ts[i];
      }
    }
  }

  /** An op whose only newline is its last character ends the line: the
      line written covers exactly the text line. */
  lemma {:induction false} PushLine(text: string, s: Split, op: Op)
    requires Follows(text, s) && op.opcode != Null && op.chars > 0 && op.lines == 1
    requires s.pos + op.chars <= |text| && text[s.pos + op.chars - 1] == '\n'
    requires Count(text[s.pos..s.pos + op.chars - 1], '\n') == 0
    ensures Follows(text, PushOp(s, op)) && PushOp(s, op).pos == s.pos + op.chars
  {
    hide *;
    var e := s.pos + op.chars;
    var m := MergeAppend(s.assem, op);
    var out := MergeOutput(m);
    FollowsIs(text, s);
    var ls := LineStart(s);
    var line := OpsToString(out);
    PushOpLine(s, op);
    var r := PushOp(s, op);
    LineWritten(s.assem, op);
    assert WroteLine(line, text[ls..e]) by {
      assert AllOps(line) == Ok(out) && Chars(out) == |text[ls..e]| && Lines(out) == 1;
      WroteLineIs(line, text[ls..e]);
    }
    LineCut(text, ls, s.pos, e);
    WroteLinesSnoc(s.lines, Mutators.TextLines(text[..ls]), line, text[ls..e]);
    ClearedEmpty(MergeFlush(m, false));
    assert text[e..e] == [];
    CountEmpty();
    FollowsIs(text, r);
  }

  lemma {:induction false} WroteLineIs(line: string, t: string)
    ensures WroteLine(line, t) <==> AllOps(line).Ok? && Chars(AllOps(line).value) == |t| && Lines(AllOps(line).value) == 1
  {
  }

  lemma {:induction false} CountEmpty()
    ensures Count([], '\n') == 0
  {
  }

  /** Where the next newline is found from `q`: none lies before it. */
  lemma {:induction false} NoNewlineBefore(text: string, q: nat, k: int, e: nat)
    requires q <= e <= |text| && k == IndexOfFrom(text, '\n', q)
    requires k < 0 || e <= k
    ensures Count(text[q..e], '\n') == 0
  {
    forall j | 0 <= j < e - q ensures text[q..e][j] != '\n' {
      IndexOfFromFirst(text, '\n', q, q + j);
    }
    CountNone(text[q..e], '\n');
  }

  /** A span whose first newline is at `k` has one more newline than the
      rest of the span after `k`. */
  lemma {:induction false} CountAfterNewline(text: string, q: nat, k: nat, e: nat)
    requires q <= k < e <= |text| && text[k] == '\n' && Count(text[q..k], '\n') == 0
    ensures Count(text[q..e], '\n') == 1 + Count(text[k + 1..e], '\n')
  {
    hide *;
    assert text[q..k + 1] == text[q..k] + [text[k]];
    CountAppend(text[q..k], [text[k]], '\n');
    CountOne('\n');
    assert text[q..e] == text[q..k + 1] + text[k + 1..e];
    CountAppend(text[q..k + 1], text[k + 1..e], '\n');
  }

  /** The cuts of the `while (numLines > 1)` loop follow the newlines of
      the op's span of the text; the last newline is left for the end. */
  lemma {:induction false} LoopFollows(text: string, s: Split, op: Op, numChars: int, numLines: int)
    requires Follows(text, s) && op.opcode != Null && numLines >= 1 && numChars >= 0
    requires s.pos + numChars <= |text| && Count(text[s.pos..s.pos + numChars], '\n') == numLines
    requires text[s.pos + numChars - 1] == '\n'
    ensures SplitLoop(text, s, op, numChars, numLines).Ok?
    ensures var p := SplitLoop(text, s, op, numChars, numLines).value;
            && Follows(text, p.0) && p.0.pos + p.1 == s.pos + numChars && p.1 >= 1
            && Count(text[p.0.pos..p.0.pos + p.1], '\n') == 1
    decreases numLines
  {
    hide *;
    FollowsIs(text, s);
    SplitLoopTurn(text, s, op, numChars, numLines);
    if numLines > 1 {
      var e := s.pos + numChars;
      var k := IndexOfFrom(text, '\n', s.pos);
      if k < 0 || e <= k {
        NoNewlineBefore(text, s.pos, k, e);
        assert false;
      }
      NoNewlineBefore(text, s.pos, k, k);
      var piece := op.(chars := k + 1 - s.pos, lines := 1);
      PushLine(text, s, piece);
      var s1 := PushOp(s, piece);
      CountAfterNewline(text, s.pos, k, e);
      LoopFollows(text, s1, op, numChars - piece.chars, numLines - 1);
    }
  }

  /** One op whose span of the text has as many newlines as the op says,
      and ends with one if it has any, keeps the split in step with the
      text. */
  lemma {:induction false} StepFollows(text: string, s: Split, op: Op)
    requires Follows(text, s) && Parsed(op)
    requires s.pos + op.chars <= |text| && Count(text[s.pos..s.pos + op.chars], '\n') == op.lines
    requires op.lines > 0 ==> text[s.pos + op.chars - 1] == '\n'
    ensures SplitStep(text, s, op).Ok?
    ensures Follows(text, SplitStep(text, s, op).value) && SplitStep(text, s, op).value.pos == s.pos + op.chars
  {
    hide Follows, SplitStep, SplitLoop, PushOp, Count, IndexOfFrom, Mutators.TextLines, MergeAppend, MergeFlush, MergeOutput, OpsToString;
    SplitStepIs(text, s, op);
    SplitLoopTurn(text, s, op, op.chars, op.lines);
    if op.lines == 0 {
      PushInLine(text, s, op);
    } else {
      var e := s.pos + op.chars;
      LoopFollows(text, s, op, op.chars, op.lines);
      var p := SplitLoop(text, s, op, op.chars, op.lines).value;
      var last := op.(chars := p.1, lines := 1);
      FollowsIs(text, p.0);
      assert text[p.0.pos..e] == text[p.0.pos..e - 1] + [text[e - 1]];
      CountAppend(text[p.0.pos..e - 1], [text[e - 1]], '\n');
      CountOne('\n');
      PushLine(text, p.0, last);
    }
  }

  /** The ops describe the text: laid end to end from its start, each op's
      span has as many newlines as the op says, and an op with newlines
      ends with one. */
  ghost predicate Describes(ops: seq<Op>, text: string)
    decreases |ops|
  {
    ops == [] ||
    (var front, o := ops[..|ops| - 1], ops[|ops| - 1];
     var p := Chars(front);
     && Describes(front, text) && 0 <= p && 0 <= o.chars && p + o.chars <= |text|
     && Count(text[p..p + o.chars], '\n') == o.lines
     && (o.lines > 0 ==> text[p + o.chars - 1] == '\n'))
  }

  lemma {:induction false} AllParsedLast(ops: seq<Op>)
    requires ops != [] && AllParsed(ops)
    ensures AllParsed(ops[..|ops| - 1]) && Parsed(ops[|ops| - 1])
  {
  }

  /** `Describes` of a non-empty list, spelled out. */
  lemma {:induction false} DescribesLast(ops: seq<Op>, text: string)
    requires ops != []
    ensures var front, o := ops[..|ops| - 1], ops[|ops| - 1];
            var p := Chars(front);
            && ops == front + [o] && Chars(ops) == p + o.chars
            && (Describes(ops, text)
                <==> && Describes(front, text) && 0 <= p && 0 <= o.chars && p + o.chars <= |text|
                     && Count(text[p..p + o.chars], '\n') == o.lines
                     && (o.lines > 0 ==> text[p + o.chars - 1] == '\n'))
  {
  }

  /** Nothing split yet follows any text; it is where the fold starts. */
  lemma {:induction false} FollowsInit(text: string)
    ensures Follows(text, SplitInit) && SplitInit.pos == 0
    ensures Fold(SplitFn(text), SplitInit, []) == Ok(SplitInit) && Chars([]) == 0
  {
    assert MergeParsed(MergeInit) by {
      assert MergeInit.out == [];
    }
    assert text[..0] == [] && Mutators.TextLines([]) == [];
    assert text[0..0] == [];
  }

  lemma {:induction false} FoldFollows(text: string, ops: seq<Op>)
    requires AllParsed(ops) && Describes(ops, text)
    ensures Fold(SplitFn(text), SplitInit, ops).Ok?
    ensures Follows(text, Fold(SplitFn(text), SplitInit, ops).value)
    ensures Fold(SplitFn(text), SplitInit, ops).value.pos == Chars(ops)
    decreases |ops|
  {
    hide *;
    if ops == [] {
      FollowsInit(text);
    } else {
      var front, op := ops[..|ops| - 1], ops[|ops| - 1];
      AllParsedLast(ops);
      DescribesLast(ops, text);
      FoldSnoc(SplitFn(text), SplitInit, front, op);
      FoldFollows(text, front);
      var s := Fold(SplitFn(text), SplitInit, front).value;
      SplitFnIs(text, s, op);
      StepFollows(text, s, op);
    }
  }

  /** Split over ops that describe a whole text ending in a newline: one
      line written per line of the text. */
  lemma {:induction false} FoldWritesLines(text: string, ops: seq<Op>)
    requires AllParsed(ops) && Describes(ops, text)
    requires Chars(ops) == |text| && (text == [] || text[|text| - 1] == '\n')
    ensures Fold(SplitFn(text), SplitInit, ops).Ok?
    ensures WroteLines(Fold(SplitFn(text), SplitInit, ops).value.lines, Mutators.TextLines(text))
  {
    hide *;
    FoldFollows(text, ops);
    var s := Fold(SplitFn(text), SplitInit, ops).value;
    FollowsIs(text, s);
    var ls := LineStart(s);
    if ls < |text| {
      assert text[ls..|text|][|text| - 1 - ls] == '\n';
      CountNone(text[ls..|text|], '\n');
      assert false;
    }
    assert text[..|text|] == text;
  }

  /** When the attribution describes a text that ends with a newline,
      `splitAttributionLines` does not throw, and gives one attribution
      line per line of the text, covering exactly that line and its one
      newline. */
  lemma {:induction false} SplitFollowsText(attrOps: string, text: string)
    requires !ParseOps(attrOps).fault && Describes(ParseOps(attrOps).ops, text)
    requires Chars(ParseOps(attrOps).ops) == |text| && (text == [] || text[|text| - 1] == '\n')
    ensures SplitAttributionLinesSpec(attrOps, text).Ok?
    ensures WroteLines(SplitAttributionLinesSpec(attrOps, text).value, Mutators.TextLines(text))
  {
    var st := ParseOps(attrOps);
    hide Describes, WroteLines, Mutators.TextLines, Count, Chars;
    ForOfOk(SplitFn(text), SplitInit, st);
    assert Visible(st) == st.ops;
    FoldWritesLines(text, st.ops);
  }
}
