/** `TextLinesMutator` (Changeset.js lines 663-966) as an object whose
    methods update its fields in place, each proved to make the step the
    window functions of `Mutators` describe, and `mutateTextLines` (lines
    1101-1119), the loop that drives one over a changeset's ops. */
module TextLines {
  import opened Results
  import opened Texts
  import opened Ops
  import opened Codec
  import opened OpIters
  import opened Cursors
  import Mutators

  /** The mutator's fields. The array `_curSplice` (its start, the number
      of array lines it replaces, then the lines that replace them) is kept
      as three fields: `start`, `removed` and `items`. */
  class TextLinesMutator {
    var lines: seq<string>
    var start: nat
    var removed: nat
    var items: seq<string>
    var inSplice: bool
    var curLine: nat
    var curCol: nat

    /** The fields as a window. */
    function State(): Mutators.Window
      reads this
    {
      Mutators.Window(lines, start, removed, items, inSplice, curLine, curCol)
    }

    ghost predicate Valid()
      reads this
    {
      Mutators.Coherent(State())
    }

    /** `new TextLinesMutator(lines)`: no splice, the cursor at the start
        of the first line; the document is the array. */
    constructor (ls: seq<string>)
      ensures Valid() && State() == Mutators.Init(ls) && Mutators.Doc(State()) == ls
    {
      lines := ls;
      start := 0;
      removed := 0;
      items := [];
      inSplice := false;
      curLine := 0;
      curCol := 0;
    }

    /** `_isCurLineInSplice()`: inside an open splice, it says whether the
        cursor line is the last line of the splice rather than the one
        after it. */
    function IsCurLineInSplice(): (b: bool)
      reads this
      ensures Valid() && inSplice ==> (b <==> curLine - start == |items| - 1)
    {
      curLine - start < |items|
    }

    /** `_putCurLineInSplice()`: the cursor line is read from the array into
        the splice unless it is there; the index it returns is the last
        splice line, which is then the cursor line. */
    method PutCurLineInSplice() returns (r: Result<nat>)
      requires Mutators.Spans(State())
      modifies this
      ensures r.Err? <==> Mutators.PutCurLine(old(State())).Err?
      ensures r.Err? ==> r.error == MissingLine && State() == old(State())
      ensures r.Ok? ==> State() == Mutators.PutCurLine(old(State())).value
      ensures r.Ok? ==> r.value == |items| - 1 && r.value == curLine - start
    {
      if !IsCurLineInSplice() {
        var line := Mutators.LineAt(lines, start + removed);
        if line.Err? {
          return Err(line.error);
        }
        items := items + [line.value];
        removed := removed + 1;
      }
      return Ok(curLine - start);
    }

    /** `_enterSplice()`. */
    method EnterSplice() returns (o: Outcome)
      requires Valid() && !inSplice
      modifies this
      ensures o.Fail? <==> Mutators.EnterSplice(old(State())).Err?
      ensures o.Fail? ==> o.error == MissingLine
      ensures o.Pass? ==> Valid() && State() == Mutators.EnterSplice(old(State())).value
    {
      start := curLine;
      removed := 0;
      if curCol > 0 {
        var s := PutCurLineInSplice();
        if s.Err? {
          return Fail(s.error);
        }
      }
      inSplice := true;
      return Pass;
    }

    /** `if (!this._inSplice) this._enterSplice()`. */
    method Open() returns (o: Outcome)
      requires Valid()
      modifies this
      ensures o.Fail? <==> Mutators.Open(old(State())).Err?
      ensures o.Fail? ==> o.error == MissingLine
      ensures o.Pass? ==> Valid() && State() == Mutators.Open(old(State())).value
    {
      if !inSplice {
        o := EnterSplice();
      } else {
        o := Pass;
      }
    }

    /** `_leaveSplice()`: the splice is written into the array. */
    method LeaveSplice()
      modifies this
      ensures Valid() && State() == Mutators.LeaveSplice(old(State()))
    {
      lines := Mutators.ArraySplice(lines, start, removed, items);
      items := [];
      start := 0;
      removed := 0;
      inSplice := false;
    }

    /** `skipLines(L, includeInSplice)`. */
    method SkipLines(L: nat, inc: bool) returns (o: Outcome)
      requires Valid()
      modifies this
      ensures o.Fail? <==> Mutators.SkipLines(old(State()), L, inc).Err?
      ensures o.Fail? ==> o.error == MissingLine
      ensures o.Pass? ==> Valid() && State() == Mutators.SkipLines(old(State()), L, inc).value
    {
      if L == 0 {
        return Pass;
      }
      if inc {
        o := Open();
        if o.Fail? {
          return;
        }
        o := PassLines(L);
        return;
      }
      if inSplice {
        if L > 1 {
          LeaveSplice();
        } else {
          var s := PutCurLineInSplice();
          if s.Err? {
            return Fail(s.error);
          }
        }
      }
      curLine := curLine + L;
      curCol := 0;
      return Pass;
    }

    /** The loop of `skipLines(L, true)`: each line is taken into the
        splice and passed. */
    method PassLines(L: nat) returns (o: Outcome)
      requires Mutators.Spans(State())
      modifies this
      ensures o.Fail? <==> Mutators.SkipLinesLoop(old(State()), L).Err?
      ensures o.Fail? ==> o.error == MissingLine
      ensures o.Pass? ==> State() == Mutators.SkipLinesLoop(old(State()), L).value
    {
      ghost var w1 := State();
      hide Mutators.SkipLinesLoop;
      for i := 0 to L
        invariant Mutators.Spans(State())
        invariant Mutators.SkipLinesLoop(w1, L) == Mutators.SkipLinesLoop(State(), L - i)
      {
        ghost var before := State();
        LoopTurn(before, L - i);
        curCol := 0;
        var s := PutCurLineInSplice();
        if s.Err? {
          return Fail(s.error);
        }
        curLine := curLine + 1;
        assert State() == Mutators.PutCurLine(before.(curCol := 0)).value.(curLine := curLine);
      }
      Mutators.LoopZero(State(), 0);
      return Pass;
    }

    /** `skip(N, L, includeInSplice)`. */
    method Skip(N: nat, L: nat, inc: bool) returns (o: Outcome)
      requires Valid()
      modifies this
      ensures o.Fail? <==> Mutators.Skip(old(State()), N, L, inc).Err?
      ensures o.Fail? ==> o.error == MissingLine
      ensures o.Pass? ==> Valid() && State() == Mutators.Skip(old(State()), N, L, inc).value
    {
      if N == 0 {
        return Pass;
      }
      if L > 0 {
        o := SkipLines(L, inc);
        return;
      }
      if inc && !inSplice {
        o := EnterSplice();
        if o.Fail? {
          return;
        }
      }
      if inSplice {
        var s := PutCurLineInSplice();
        if s.Err? {
          return Fail(s.error);
        }
      }
      curCol := curCol + N;
      return Pass;
    }

    /** `removeLines(L)`: returns the text removed. */
    method RemoveLines(L: nat) returns (r: Result<string>)
      requires Valid()
      modifies this
      ensures r.Err? <==> Mutators.RemoveLines(old(State()), L).Err?
      ensures r.Err? ==> r.error == MissingLine
      ensures r.Ok? ==> Valid() && (r.value, State()) == Mutators.RemoveLines(old(State()), L).value
    {
      ghost var w0 := State();
      hide Mutators.RemoveLines, Mutators.Open;
      if L == 0 {
        RemoveNothing(w0);
        return Ok("");
      }
      var o := Open();
      if o.Fail? {
        Mutators.RemoveOpenFails(w0, L);
        return Err(o.error);
      }
      if IsCurLineInSplice() {
        if curCol == 0 {
          Mutators.RemoveHeadSteps(w0, L);
          var text := RemoveHead(L);
          return Ok(text);
        } else {
          Mutators.RemoveJoinedSteps(w0, L);
          r := RemoveJoined(L);
          if r.Ok? {
            Mutators.RemoveJoinedStepsOk(w0, L, items[|items| - 1]);
          }
        }
      } else {
        Mutators.RemoveAfterSteps(w0, L);
        var text := Mutators.NextLines(State(), L);
        removed := removed + L;
        return Ok(text);
      }
    }

    /** `removeLines(L)` at the start of the last splice line. */
    method RemoveHead(L: nat) returns (text: string)
      requires L > 0 && |items| > 0
      modifies this
      ensures text == Mutators.HeadText(old(State()), L) && State() == Mutators.HeadWindow(old(State()), L)
    {
      var sline := |items| - 1;
      text := items[sline];
      items := items[..sline];
      text := text + Mutators.NextLines(State(), L - 1);
      removed := removed + (L - 1);
    }

    /** `removeLines(L)` inside the last splice line: the line is joined
        with the first array line after those removed. */
    method RemoveJoined(L: nat) returns (r: Result<string>)
      requires L > 0 && |items| > 0
      modifies this
      ensures var w1 := old(State());
              var a := w1.start + w1.removed + (L - 1);
              && (r.Err? <==> Mutators.LineAt(w1.lines, a).Err?)
              && (r.Err? ==> r.error == MissingLine)
              && (r.Ok? ==> var x := Substring(w1.items[|w1.items| - 1], 0, w1.curCol) + w1.lines[a];
                            && |items| == |w1.items| && x == items[|items| - 1]
                            && r.value == Mutators.JoinedText(w1, L) && State() == Mutators.JoinedWindow(w1, L, x))
    {
      var sline := |items| - 1;
      var text := Mutators.NextLines(State(), L - 1);
      removed := removed + (L - 1);
      text := Mutators.From(items[sline], curCol) + text;
      var next := Mutators.LineAt(lines, start + removed);
      if next.Err? {
        return Err(next.error);
      }
      items := items[sline := Substring(items[sline], 0, curCol) + next.value];
      removed := removed + 1;
      return Ok(text);
    }

    /** `remove(N, L)`: returns the text removed. */
    method Remove(N: nat, L: nat) returns (r: Result<string>)
      requires Valid()
      modifies this
      ensures r.Err? <==> Mutators.Remove(old(State()), N, L).Err?
      ensures r.Err? ==> r.error == MissingLine
      ensures r.Ok? ==> Valid() && (r.value, State()) == Mutators.Remove(old(State()), N, L).value
    {
      if N == 0 {
        return Ok("");
      }
      if L > 0 {
        r := RemoveLines(L);
        return;
      }
      var o := Open();
      if o.Fail? {
        return Err(o.error);
      }
      var s := PutCurLineInSplice();
      if s.Err? {
        return Err(s.error);
      }
      var sline := s.value;
      var line := items[sline];
      var text := Substring(line, curCol, curCol + N);
      items := items[sline := Substring(line, 0, curCol) + Mutators.From(line, curCol + N)];
      return Ok(text);
    }

    /** `insert(text, L)`. */
    method Insert(text: string, L: nat) returns (o: Outcome)
      requires Valid()
      modifies this
      ensures o.Fail? <==> Mutators.Insert(old(State()), text, L).Err?
      ensures o.Fail? ==> o.error == MissingLine
      ensures o.Pass? ==> Valid() && State() == Mutators.Insert(old(State()), text, L).value
    {
      ghost var w0 := State();
      hide Mutators.Insert, Mutators.Open, Mutators.PutCurLine;
      if text == [] {
        InsertNothing(w0, L);
        return Pass;
      }
      if L > 0 {
        Mutators.InsertLinesSteps(w0, text, L);
        o := Open();
        if o.Fail? {
          return;
        }
        InsertLines(text);
      } else {
        Mutators.InsertInLineSteps(w0, text);
        o := Open();
        if o.Fail? {
          return;
        }
        o := InsertInLine(text);
      }
    }

    /** `insert(text, L)` with `L > 0` once the splice is open: the lines of
        the text break the cursor line, or follow the splice when the
        cursor line is not in it. */
    method InsertLines(text: string)
      requires Valid() && inSplice && text != []
      modifies this
      ensures var w1, pieces := old(State()), Mutators.TextLines(text);
              && |pieces| >= 1
              && (Mutators.CurLineInSplice(w1) ==>
                    var sl := |w1.items| - 1;
                    var line := w1.items[sl];
                    State() == w1.(items := w1.items[sl := Substring(line, 0, w1.curCol) + pieces[0]] + pieces[1..]
                                            + [Mutators.From(line, w1.curCol)],
                                   curLine := w1.curLine + |pieces|, curCol := 0))
              && (!Mutators.CurLineInSplice(w1) ==>
                    State() == w1.(items := w1.items + pieces, curLine := w1.curLine + |pieces|))
    {
      var newLines := Mutators.SplitTextLines(text).value;
      assert newLines == Mutators.TextLines(text);
      if IsCurLineInSplice() {
        BreakLine(newLines);
      } else {
        items := items + newLines;
        curLine := curLine + |newLines|;
      }
    }

    /** `insert(text, 0)` once the splice is open: the text goes into the
        cursor line at the cursor column. */
    method InsertInLine(text: string) returns (o: Outcome)
      requires Mutators.Spans(State())
      modifies this
      ensures var r2 := Mutators.PutCurLine(old(State()));
              && (o.Fail? <==> r2.Err?)
              && (o.Fail? ==> o.error == MissingLine)
              && (o.Pass? ==>
                    var w2 := r2.value;
                    var line := w2.items[|w2.items| - 1];
                    State() == w2.(items := w2.items[|w2.items| - 1 := Substring(line, 0, w2.curCol) + text
                                                                      + Mutators.From(line, w2.curCol)],
                                   curCol := w2.curCol + |text|))
    {
      var s := PutCurLineInSplice();
      if s.Err? {
        return Fail(s.error);
      }
      var sline := s.value;
      items := items[sline := Substring(items[sline], 0, curCol) + text
                              + Mutators.From(items[sline], curCol)];
      curCol := curCol + |text|;
      return Pass;
    }

    /** `insert(text, L)` with `L > 0` inside the last splice line: the
        line is broken at the cursor column around the new lines, and the
        cursor goes to the start of the line holding its rest. */
    method BreakLine(newLines: seq<string>)
      requires |items| > 0 && |newLines| >= 1
      modifies this
      ensures var w1 := old(State());
              var sl := |w1.items| - 1;
              var line := w1.items[sl];
              State() == w1.(items := w1.items[sl := Substring(line, 0, w1.curCol) + newLines[0]]
                                      + newLines[1..] + [Mutators.From(line, w1.curCol)],
                             curLine := w1.curLine + |newLines|, curCol := 0)
    {
      var sline := |items| - 1;
      var theLine := items[sline];
      var lineCol := curCol;
      items := items[sline := Substring(theLine, 0, lineCol) + newLines[0]];
      curLine := curLine + 1;
      var rest := newLines[1..];
      items := items + rest;
      curLine := curLine + |rest|;
      items := items + [Mutators.From(theLine, lineCol)];
      curCol := 0;
    }

    /** `hasMore()`: the array length corrected by what the splice adds
        and takes out; when the splice fits the array, this says whether
        the cursor line lies in the document. */
    function HasMore(): (b: bool)
      reads this
      requires Valid()
      ensures Mutators.Tidy(State()) ==> (b <==> curLine < |Mutators.Doc(State())|)
    {
      var docLines := |lines| + (if inSplice then |items| - removed else 0);
      assert Mutators.Tidy(State()) ==> (curLine < docLines <==> curLine < |Mutators.Doc(State())|) by {
        if Mutators.Tidy(State()) {
          Mutators.HasMoreDoc(State());
        }
      }
      curLine < docLines
    }

    /** `close()`: the splice is written back; the array is then the
        document. */
    method Close()
      requires Valid()
      modifies this
      ensures Valid() && !inSplice && State() == Mutators.Close(old(State()))
      ensures lines == Mutators.Doc(old(State()))
    {
      if inSplice {
        LeaveSplice();
      }
    }
  }

  lemma {:induction false} InsertNothing(w: Mutators.Window, L: nat)
    requires Mutators.Coherent(w)
    ensures Mutators.Insert(w, "", L) == Ok(w)
  {
  }

  lemma {:induction false} RemoveNothing(w: Mutators.Window)
    requires Mutators.Coherent(w)
    ensures Mutators.RemoveLines(w, 0) == Ok(("", w))
  {
  }

  /** One turn of the loop of `skipLines(k, true)`. */
  lemma {:induction false} LoopTurn(w: Mutators.Window, k: nat)
    requires Mutators.Spans(w) && k > 0
    ensures var r1 := Mutators.PutCurLine(w.(curCol := 0));
            && (r1.Err? ==> Mutators.SkipLinesLoop(w, k).Err?)
            && (r1.Ok? ==> Mutators.SkipLinesLoop(w, k)
                           == Mutators.SkipLinesLoop(r1.value.(curLine := r1.value.curLine + 1), k - 1))
  {
  }

  // ---------------------------------------------------------------- mutateTextLines

  /** The state of the loop of `mutateTextLines`: the char bank position
      and the mutator. */
  datatype Mutated = Mutated(bankPos: int, w: Mutators.Window)

  /** A loop state whose mutator keeps its invariant. */
  type Mutation = m: Mutated | Mutators.Coherent(m.w) witness Mutated(0, Mutators.Init([]))

  /** The state before the first op: a new mutator over `lines`. */
  function Initial(lines: seq<string>): (m: Mutation)
    ensures Mutators.Doc(m.w) == lines && Mutators.Sound(m.w) && m.w.curLine == 0
  {
    Mutated(0, Mutators.Init(lines))
  }

  /** An op's line count; decoded ops never carry a negative one. */
  function LineCount(o: Op): nat {
    if o.lines < 0 then 0 else o.lines
  }

  /** One turn of the loop: an insert takes its characters from the char
      bank, a delete removes and a keep skips; a keep takes the lines it
      passes into the splice when it carries attributes. */
  function MutateStep(bank: string, m: Mutation, o: Op): (r: Result<Mutation>)
    ensures r.Err? ==> r.error == OutOfBounds || r.error == MissingLine
    ensures r.Err? && o.opcode != Insert ==> r.error == MissingLine
    ensures r.Ok? ==> r.value.bankPos == m.bankPos + (if o.opcode == Insert then Width(o) else 0)
  {
    match o.opcode
    case Insert =>
      var piece :- PeekAt(bank, m.bankPos, Width(o));
      var w :- Mutators.Insert(m.w, piece, LineCount(o));
      Ok(Mutated(m.bankPos + Width(o), w))
    case Delete =>
      var d :- Mutators.Remove(m.w, Width(o), LineCount(o));
      Ok(Mutated(m.bankPos, d.1))
    case Keep =>
      var w :- Mutators.Skip(m.w, Width(o), LineCount(o), o.attribs != []);
      Ok(Mutated(m.bankPos, w))
    case Null => Ok(m)
  }

  function MutateFn(bank: string): (Mutation, Op) -> Result<Mutation> {
    (m, o) => MutateStep(bank, m, o)
  }

  /** What the loop of `mutateTextLines` leaves: the error a step or the op
      stream throws, or the lines once the mutator is closed. */
  function LoopResult(bank: string, ops: string, lines: seq<string>): Result<seq<string>> {
    var m :- ForOf(MutateFn(bank), Initial(lines), ParseOps(ops));
    Ok(Mutators.Close(m.w).lines)
  }

  /** What `mutateTextLines(cs, lines)` leaves in `lines`, or the error it
      throws. */
  function MutateTextLinesSpec(cs: string, lines: seq<string>): Result<seq<string>> {
    var c :- Unpack(cs);
    LoopResult(c.charBank, c.ops, lines)
  }

  /** One op of the loop, on the char bank iterator and the mutator. */
  method MutateOp(o: Op, bankIter: StringIterator, mut: TextLinesMutator) returns (r: Outcome)
    requires Parsed(o) && bankIter.Valid() && mut.Valid()
    modifies bankIter, mut
    ensures bankIter.Valid() && (r.Pass? ==> mut.Valid())
    ensures var want := MutateStep(bankIter.str, Mutated(old(bankIter.curIndex), old(mut.State())), o);
            if r.Pass? then want == Ok(Mutated(bankIter.curIndex, mut.State())) else want == Err(r.error)
  {
    match o.opcode
    case Insert =>
      var piece := bankIter.Take(Width(o));
      if piece.Err? {
        return Fail(piece.error);
      }
      r := mut.Insert(piece.value, LineCount(o));
    case Delete =>
      var removed := mut.Remove(Width(o), LineCount(o));
      r := if removed.Err? then Fail(removed.error) else Pass;
    case Keep =>
      r := mut.Skip(Width(o), LineCount(o), o.attribs != []);
  }

  /** `MutateOp` as one more step of the fold over the ops read so far. */
  method FoldOp(o: Op, bankIter: StringIterator, mut: TextLinesMutator, ghost init: Mutation, ghost done: seq<Op>)
    returns (r: Outcome)
    requires Parsed(o) && bankIter.Valid() && mut.Valid()
    requires Fold(MutateFn(bankIter.str), init, done) == Ok(Mutated(bankIter.curIndex, mut.State()))
    modifies bankIter, mut
    ensures bankIter.Valid() && (r.Pass? ==> mut.Valid())
    ensures Fold(MutateFn(bankIter.str), init, done + [o])
            == if r.Pass? then Ok(Mutated(bankIter.curIndex, mut.State())) else Err(r.error)
  {
    FoldSnoc(MutateFn(bankIter.str), init, done, o);
    r := MutateOp(o, bankIter, mut);
  }

  /** `mutateTextLines(cs, lines)`: the lines as the changeset leaves them. */
  method MutateTextLines(cs: string, lines: seq<string>) returns (r: Result<seq<string>>)
    ensures r == MutateTextLinesSpec(cs, lines)
  {
    var u := Unpack(cs);
    if u.Err? {
      return Err(u.error);
    }
    var c := u.value;
    r := MutateOps(c.charBank, c.ops, lines);
  }

  /** The loop of `mutateTextLines`: the ops read the char bank through a
      string iterator and edit the lines through a mutator. */
  method MutateOps(bank: string, ops: string, lines: seq<string>) returns (r: Result<seq<string>>)
    ensures r == LoopResult(bank, ops, lines)
  {
    ghost var st := ParseOps(ops);
    ghost var step := MutateFn(bank);
    ghost var init := Initial(lines);
    assert Fold(step, init, []) == Ok(init);
    assert AllParsed(st.ops) && (OpenStream(st).Fail? ==> Visible(st) == [] && st.fault);
    hide *;

    var bankIter := new StringIterator(bank);
    var mut := new TextLinesMutator(lines);
    var start := OpIter.Open(ops);
    if start.Err? {
      ForOfEnd(step, init, st, []);
      LoopThrows(bank, ops, lines, start.error);
      return Err(start.error);
    }
    var it := start.value;
    ghost var done: seq<Op> := [];
    while it.HasNext()
      invariant it.Valid() && it.opsStr == ops && bankIter.Valid() && mut.Valid()
      invariant bankIter.str == bank
      invariant done + it.rest.ops == st.ops && it.rest.fault == st.fault && AllParsed(it.rest.ops)
      invariant Fold(step, init, done) == Ok(Mutated(bankIter.curIndex, mut.State()))
      decreases |it.rest.ops|
    {
      ghost var before := it.rest;
      var next := it.Next();
      if next.Err? {
        ForOfThrows(step, init, st, done, before);
        LoopThrows(bank, ops, lines, next.error);
        return Err(next.error);
      }
      var o := next.value;
      StreamAdvance(st, done, before, o, it.rest);
      var res := FoldOp(o, bankIter, mut, init, done);
      if res.Fail? {
        ForOfStep(step, init, st, done, o, it.rest.ops);
        LoopThrows(bank, ops, lines, res.error);
        return Err(res.error);
      }
      done := done + [o];
    }
    assert done == st.ops && !st.fault;
    ForOfEnd(step, init, st, done);
    ghost var m := Mutated(bankIter.curIndex, mut.State());
    mut.Close();
    LoopEnds(bank, ops, lines, m);
    return Ok(mut.lines);
  }

  lemma {:induction false} LoopThrows(bank: string, ops: string, lines: seq<string>, e: Error)
    requires ForOf(MutateFn(bank), Initial(lines), ParseOps(ops)) == Err(e)
    ensures LoopResult(bank, ops, lines) == Err(e)
  {
  }

  lemma {:induction false} LoopEnds(bank: string, ops: string, lines: seq<string>, m: Mutation)
    requires ForOf(MutateFn(bank), Initial(lines), ParseOps(ops)) == Ok(m)
    ensures LoopResult(bank, ops, lines) == Ok(Mutators.Doc(m.w))
  {
  }

  /** The identity changeset leaves any lines as they are; `mutateTextLines`
      does not check the old length. */
  lemma {:induction false} MutateIdentity(n: nat, lines: seq<string>)
    ensures MutateTextLinesSpec(Identity(n), lines) == Ok(lines)
  {
    hide ScanOp, ParseOpsFrom, ScanHeader, Unpack, Identity, Pack;
    IdentityIsIdentity(n);
    MutateNoOps(lines);
  }

  lemma {:induction false} MutateNoOps(lines: seq<string>)
    ensures LoopResult("", "", lines) == Ok(lines)
  {
    assert ParseOps("") == Stream([], false);
    hide ScanOp, ParseOpsFrom;
  }

  /** Every op keeps. */
  predicate OnlyKeeps(ops: seq<Op>) {
    forall i :: 0 <= i < |ops| ==> ops[i].opcode == Keep
  }

  /** A changeset that only keeps, such as one that only changes
      attributes, over no more lines than there are, leaves the lines as
      they are whenever it applies. */
  lemma {:induction false} MutateKeeps(cs: string, lines: seq<string>)
    requires Unpack(cs).Ok?
    requires var ops := ParseOps(Unpack(cs).value.ops).ops;
             OnlyKeeps(ops) && LineTotal(ops, {Keep}) <= |lines|
    ensures MutateTextLinesSpec(cs, lines).Ok? ==> MutateTextLinesSpec(cs, lines) == Ok(lines)
  {
    var c := Unpack(cs).value;
    var st := ParseOps(c.ops);
    assert AllParsed(st.ops);
    var v := Visible(st);
    assert st.ops == v + st.ops[|v|..];
    KeepsPrefix(st.ops, |v|);
    KeepsFold(c.charBank, lines, v);
  }

  /** A prefix of keeps only passes no more lines than the whole. */
  lemma {:induction false} KeepsPrefix(ops: seq<Op>, k: nat)
    requires AllParsed(ops) && OnlyKeeps(ops) && k <= |ops|
    ensures OnlyKeeps(ops[..k]) && AllParsed(ops[..k]) && LineTotal(ops[..k], {Keep}) <= LineTotal(ops, {Keep})
    decreases |ops|
  {
    if k < |ops| {
      var front := ops[..|ops| - 1];
      assert ops == front + [ops[|ops| - 1]];
      assert Parsed(ops[|ops| - 1]);
      LineTotalSnoc(front, ops[|ops| - 1], {Keep});
      assert front[..k] == ops[..k];
      KeepsPrefix(front, k);
    } else {
      assert ops[..k] == ops;
    }
  }

  /** The loop over keeps only: the document stays the lines, and the
      cursor line never passes the lines the ops have kept. */
  lemma {:induction false} KeepsFold(bank: string, lines: seq<string>, ops: seq<Op>)
    requires AllParsed(ops) && OnlyKeeps(ops) && LineTotal(ops, {Keep}) <= |lines|
    ensures var r := Fold<Mutation>(MutateFn(bank), Initial(lines), ops);
            r.Ok? ==> && Mutators.Sound(r.value.w) && Mutators.Doc(r.value.w) == lines
                      && r.value.w.curLine <= LineTotal(ops, {Keep})
    decreases |ops|
  {
    if ops != [] {
      var front, o := ops[..|ops| - 1], ops[|ops| - 1];
      assert ops == front + [o];
      KeepsPrefix(ops, |ops| - 1);
      KeepsFold(bank, lines, front);
      FoldSnoc<Mutation>(MutateFn(bank), Initial(lines), front, o);
      LineTotalSnoc(front, o, {Keep});
      assert Parsed(o) && o.opcode == Keep;
      var r0 := Fold<Mutation>(MutateFn(bank), Initial(lines), front);
      if r0.Ok? {
        Mutators.SkipKeeps(r0.value.w, Width(o), LineCount(o), o.attribs != []);
      }
    }
  }
}
