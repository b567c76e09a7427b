/** `toSplices` and `characterRangeFollow` (Changeset.js lines 1485-1569):
    a changeset as the list of spans of the old text it replaces, and a
    character range carried through those replacements. */
module Splices {
  import opened Results
  import opened Ops
  import opened Codec
  import opened OpIters
  import opened Cursors
  import opened Apply
  import opened Replays

  /** `[startChar, endChar, newText]`: the old text from `start` up to
      `end` gives way to `text`. */
  datatype Splice = Splice(start: int, end: int, text: string)

  /** The state of the loop of `toSplices`: the position in the old text,
      the splices so far, whether the last op went into the last splice,
      and the position of the char bank's iterator. */
  datatype SplicingState = Splicing(oldPos: int, splices: seq<Splice>, inSplice: bool, bankPos: int)

  /** While in a splice there is a splice to extend. */
  type Splicing = s: SplicingState | s.inSplice ==> s.splices != [] witness Splicing(0, [], false, 0)

  const SplicingInit: Splicing := Splicing(0, [], false, 0)

  /** The splice a delete or an insert goes into: the open one, or a new
      empty one at the read position. */
  function Opened(s: Splicing): (t: Splicing)
    ensures t.inSplice && t.oldPos == s.oldPos && t.bankPos == s.bankPos
  {
    if s.inSplice then s else s.(splices := s.splices + [Splice(s.oldPos, s.oldPos, "")], inSplice := true)
  }

  /** `splices[splices.length - 1][1] += n`. */
  function Widen(sp: seq<Splice>, n: int): (r: seq<Splice>)
    requires sp != []
    ensures |r| == |sp| && r[..|r| - 1] == sp[..|sp| - 1]
    ensures r[|r| - 1] == sp[|sp| - 1].(end := sp[|sp| - 1].end + n)
  {
    sp[|sp| - 1 := sp[|sp| - 1].(end := sp[|sp| - 1].end + n)]
  }

  /** `splices[splices.length - 1][2] += piece`. */
  function Extend(sp: seq<Splice>, piece: string): (r: seq<Splice>)
    requires sp != []
    ensures |r| == |sp| && r[..|r| - 1] == sp[..|sp| - 1]
    ensures r[|r| - 1] == sp[|sp| - 1].(text := sp[|sp| - 1].text + piece)
  {
    sp[|sp| - 1 := sp[|sp| - 1].(text := sp[|sp| - 1].text + piece)]
  }

  /** One turn of the loop: a keep ends the current splice; a delete or an
      insert starts one if none is open, then a delete widens it over the
      old text and an insert adds the next characters of the char bank to
      its new text (`take` throws when the bank runs out). */
  function SpliceStep(bank: string, s: Splicing, o: Op): Result<Splicing> {
    if o.opcode == Keep then Ok(s.(oldPos := s.oldPos + o.chars, inSplice := false))
    else
      var t := Opened(s);
      if o.opcode == Delete then Ok(t.(oldPos := t.oldPos + o.chars, splices := Widen(t.splices, o.chars)))
      else if o.opcode == Insert then
        var piece :- PeekAt(bank, t.bankPos, Width(o));
        Ok(t.(bankPos := t.bankPos + Width(o), splices := Extend(t.splices, piece)))
      else Ok(t)
  }

  lemma {:induction false} KeepStepIs(bank: string, s: Splicing, o: Op)
    requires o.opcode == Keep
    ensures SpliceStep(bank, s, o) == Ok(s.(oldPos := s.oldPos + o.chars, inSplice := false))
  {
  }

  lemma {:induction false} DeleteStepIs(bank: string, s: Splicing, o: Op)
    requires o.opcode == Delete
    ensures SpliceStep(bank, s, o) == Ok(Opened(s).(oldPos := s.oldPos + o.chars, splices := Widen(Opened(s).splices, o.chars)))
  {
  }

  lemma {:induction false} InsertStepIs(bank: string, s: Splicing, o: Op, piece: Result<string>)
    requires Parsed(o) && o.opcode !in {Keep, Delete} && piece == PeekAt(bank, s.bankPos, o.chars)
    ensures piece.Err? ==> SpliceStep(bank, s, o) == Err(piece.error)
    ensures piece.Ok? ==> SpliceStep(bank, s, o)
                          == Ok(Opened(s).(bankPos := s.bankPos + o.chars, splices := Extend(Opened(s).splices, piece.value)))
  {
  }

  function SpliceFn(bank: string): (Splicing, Op) -> Result<Splicing> {
    (s, o) => SpliceStep(bank, s, o)
  }

  /** What `toSplices(cs)` returns or throws. */
  function ToSplicesSpec(cs: string): Result<seq<Splice>> {
    var c :- Unpack(cs);
    var s :- ForOf(SpliceFn(c.charBank), SplicingInit, ParseOps(c.ops));
    Ok(s.splices)
  }

  lemma {:induction false} ToSplicesSpecOk(cs: string, s: Splicing)
    requires Unpack(cs).Ok?
    requires ForOf(SpliceFn(Unpack(cs).value.charBank), SplicingInit, ParseOps(Unpack(cs).value.ops)) == Ok(s)
    ensures ToSplicesSpec(cs) == Ok(s.splices)
  {
  }

  // ---------------------------------------------------------------- reference

  /** Splices in order and apart: each starts no later than it ends and
      ends no later than the next starts, all within the text. */
  ghost predicate Fits(sp: seq<Splice>, n: int) {
    && (forall i :: 0 <= i < |sp| ==> 0 <= sp[i].start <= sp[i].end <= n)
    && (forall i, j :: 0 <= i < j < |sp| ==> sp[i].end <= sp[j].start)
  }

  function LastEnd(sp: seq<Splice>): int {
    if sp == [] then 0 else sp[|sp| - 1].end
  }

  lemma {:induction false} FitsFront(sp: seq<Splice>, n: int)
    requires sp != [] && Fits(sp, n)
    ensures Fits(sp[..|sp| - 1], n) && 0 <= LastEnd(sp[..|sp| - 1]) <= sp[|sp| - 1].start
  {
  }

  /** The new text up to the end of the last splice: the old text between
      the splices, each splice's new text in place of its span. */
  function Prefix(text: string, sp: seq<Splice>): string
    requires Fits(sp, |text|)
  {
    if sp == [] then ""
    else
      var front, last := sp[..|sp| - 1], sp[|sp| - 1];
      FitsFront(sp, |text|);
      Prefix(text, front) + text[LastEnd(front)..last.start] + last.text
  }

  /** The text with every splice made: a reference for what the changeset
      does to it. */
  function Spliced(text: string, sp: seq<Splice>): string
    requires Fits(sp, |text|)
  {
    Prefix(text, sp) + text[LastEnd(sp)..]
  }

  // ---------------------------------------------------------------- the loop

  /** The loop's state fits the old text so far: the splices are in order
      and end where the old text has been read to, or before. */
  ghost predicate Placed(s: Splicing, n: int) {
    Fits(s.splices, s.oldPos) && 0 <= LastEnd(s.splices) <= s.oldPos <= n
    && (s.inSplice ==> LastEnd(s.splices) == s.oldPos)
  }

  lemma {:induction false} FitsWiden(sp: seq<Splice>, m: int, n: int)
    requires Fits(sp, m) && m <= n
    ensures Fits(sp, n)
  {
  }

  /** Opening a splice at the read position keeps the splices in order. */
  lemma {:induction false} OpenPlaced(s: Splicing, n: int)
    requires Placed(s, n)
    ensures Placed(Opened(s), n) && LastEnd(Opened(s).splices) == s.oldPos
  {
    if !s.inSplice {
      var sp := s.splices + [Splice(s.oldPos, s.oldPos, "")];
      assert forall i :: 0 <= i < |s.splices| ==> sp[i] == s.splices[i];
      if s.splices != [] {
        assert s.splices[|s.splices| - 1].end <= s.oldPos;
      }
    }
  }

  /** Widening the last splice up to a later position keeps them in order. */
  lemma {:induction false} WidenFits(sp: seq<Splice>, c: int, n: int)
    requires sp != [] && Fits(sp, LastEnd(sp)) && c >= 0 && LastEnd(sp) + c <= n
    ensures Fits(Widen(sp, c), n) && LastEnd(Widen(sp, c)) == LastEnd(sp) + c
  {
    var r := Widen(sp, c);
    var k := |sp| - 1;
    assert forall i :: 0 <= i < k ==> r[i] == sp[i];
  }

  /** Adding new text to the last splice leaves every span alone. */
  lemma {:induction false} ExtendFits(sp: seq<Splice>, piece: string, n: int)
    requires sp != [] && Fits(sp, n)
    ensures Fits(Extend(sp, piece), n) && LastEnd(Extend(sp, piece)) == LastEnd(sp)
  {
    var r := Extend(sp, piece);
    var k := |sp| - 1;
    assert forall i :: 0 <= i < k ==> r[i] == sp[i];
  }

  /** Each step keeps the state in order, given ops whose counts are not
      negative. */
  lemma {:induction false} StepPlaced(bank: string, s: Splicing, o: Op, n: int)
    requires Placed(s, n) && Parsed(o) && s.oldPos + (if o.opcode == Insert then 0 else o.chars) <= n
    requires SpliceStep(bank, s, o).Ok?
    ensures Placed(SpliceStep(bank, s, o).value, n)
  {
    hide Fits, Widen, Extend, PeekAt;
    if o.opcode != Keep {
      var t := Opened(s);
      OpenPlaced(s, n);
      if o.opcode == Delete {
        WidenFits(t.splices, o.chars, t.oldPos + o.chars);
      } else if o.opcode == Insert {
        ExtendFits(t.splices, PeekAt(bank, t.bankPos, Width(o)).value, t.oldPos);
      }
    } else {
      FitsWiden(s.splices, s.oldPos, s.oldPos + o.chars);
    }
  }

  /** Whatever state the loop reaches over ops that stay within a text of
      length `n`, its splices are in order. */
  lemma {:induction false} FoldPlaced(bank: string, ops: seq<Op>, n: int)
    requires AllParsed(ops) && Total(ops, {Keep, Delete}) <= n
    requires Fold(SpliceFn(bank), SplicingInit, ops).Ok?
    ensures var s := Fold(SpliceFn(bank), SplicingInit, ops).value;
            Placed(s, n) && s.oldPos == Total(ops, {Keep, Delete})
  {
    if ops != [] {
      var front, o := ops[..|ops| - 1], ops[|ops| - 1];
      assert ops == front + [o];
      TotalSnoc(front, o, {Keep, Delete});
      TotalNonNegative(front, {Keep, Delete});
      FoldSnoc(SpliceFn(bank), SplicingInit, front, o);
      FoldPlaced(bank, front, n);
      var s := Fold(SpliceFn(bank), SplicingInit, front).value;
      assert SpliceFn(bank)(s, o) == SpliceStep(bank, s, o);
      StepPlaced(bank, s, o, n);
    }
  }

  /** Splices come out in order, apart, and within the old text: the ops
      a parse yields never count backwards. */
  lemma {:induction false} ToSplicesFit(cs: string)
    requires ToSplicesSpec(cs).Ok?
    ensures Fits(ToSplicesSpec(cs).value, Total(Visible(ParseOps(Unpack(cs).value.ops)), {Keep, Delete}))
  {
    var c := Unpack(cs).value;
    var v := Visible(ParseOps(c.ops));
    assert AllParsed(v);
    var n := Total(v, {Keep, Delete});
    FoldPlaced(c.charBank, v, n);
  }

  // ---------------------------------------------------------------- against applyToText

  /** The loops of `applyToText` and `toSplices` in step: the same
      positions, and the output so far is the spliced text up to the read
      position. */
  ghost predicate Agree(text: string, a: Applied, s: Splicing) {
    Placed(s, |text|) && a.strPos == s.oldPos && a.bankPos == s.bankPos
    && a.out == Prefix(text, s.splices) + text[LastEnd(s.splices)..s.oldPos]
  }

  lemma {:induction false} PrefixSnoc(text: string, sp: seq<Splice>, x: Splice)
    requires Fits(sp + [x], |text|)
    ensures (sp + [x])[..|sp|] == sp && Fits(sp, |text|) && 0 <= LastEnd(sp) <= x.start <= |text|
    ensures Prefix(text, sp + [x]) == Prefix(text, sp) + text[LastEnd(sp)..x.start] + x.text
  {
    assert (sp + [x])[..|sp|] == sp;
    FitsFront(sp + [x], |text|);
  }

  /** The prefix does not look at where the last splice ends. */
  lemma {:induction false} PrefixWiden(text: string, sp: seq<Splice>, c: int)
    requires sp != [] && Fits(sp, |text|) && Fits(Widen(sp, c), |text|)
    ensures Prefix(text, Widen(sp, c)) == Prefix(text, sp)
  {
    FitsFront(sp, |text|);
  }

  /** New text added to the last splice ends the prefix. */
  lemma {:induction false} PrefixExtend(text: string, sp: seq<Splice>, piece: string)
    requires sp != [] && Fits(sp, |text|) && Fits(Extend(sp, piece), |text|)
    ensures Prefix(text, Extend(sp, piece)) == Prefix(text, sp) + piece
  {
    FitsFront(sp, |text|);
  }

  /** Before a delete or an insert, the splice it goes into ends at the
      read position, and the output so far is the prefix up to it. */
  lemma {:induction false} OpenAgree(text: string, a: Applied, s: Splicing)
    requires Agree(text, a, s)
    ensures Placed(Opened(s), |text|) && LastEnd(Opened(s).splices) == s.oldPos
    ensures Fits(Opened(s).splices, |text|) && a.out == Prefix(text, Opened(s).splices)
  {
    OpenPlaced(s, |text|);
    FitsWiden(Opened(s).splices, s.oldPos, |text|);
    if s.inSplice {
      assert text[LastEnd(s.splices)..s.oldPos] == "";
    } else {
      PrefixSnoc(text, s.splices, Splice(s.oldPos, s.oldPos, ""));
    }
  }

  lemma {:induction false} KeepAgree(bank: string, text: string, a: Applied, s: Splicing, o: Op, b: Applied)
    requires Agree(text, a, s) && Parsed(o) && o.opcode == Keep && ApplyStep(bank, text, a, o) == Ok(b)
    ensures SpliceStep(bank, s, o).Ok? && Agree(text, b, SpliceStep(bank, s, o).value)
  {
    var e := LastEnd(s.splices);
    var piece := text[a.strPos..a.strPos + o.chars];
    assert b.out == a.out + piece && b.strPos == a.strPos + o.chars;
    assert text[e..s.oldPos] + piece == text[e..s.oldPos + o.chars];
    FitsWiden(s.splices, s.oldPos, s.oldPos + o.chars);
  }

  lemma {:induction false} DeleteAgree(bank: string, text: string, a: Applied, s: Splicing, o: Op, b: Applied)
    requires Agree(text, a, s) && Parsed(o) && o.opcode == Delete && ApplyStep(bank, text, a, o) == Ok(b)
    ensures SpliceStep(bank, s, o).Ok? && Agree(text, b, SpliceStep(bank, s, o).value)
  {
    hide Fits, Prefix, Widen, Extend, PeekAt, ApplyStep;
    StepFacts(bank, text, a, o, b);
    assert b.out == a.out && b.strPos == a.strPos + o.chars && b.bankPos == a.bankPos && b.strPos <= |text|;
    var t := Opened(s);
    var r := t.(oldPos := t.oldPos + o.chars, splices := Widen(t.splices, o.chars));
    assert SpliceStep(bank, s, o) == Ok(r);
    assert o.chars >= 0 && t.oldPos == a.strPos;
    hide SpliceStep, Moved, Source, Pos;
    OpenAgree(text, a, s);
    WidenFits(t.splices, o.chars, |text|);
    WidenFits(t.splices, o.chars, r.oldPos);
    PrefixWiden(text, t.splices, o.chars);
    assert text[LastEnd(r.splices)..r.oldPos] == "";
    assert Placed(r, |text|);
    assert Agree(text, b, r);
  }

  lemma {:induction false} InsertAgree(bank: string, text: string, a: Applied, s: Splicing, o: Op, b: Applied)
    requires Agree(text, a, s) && Parsed(o) && o.opcode == Insert && ApplyStep(bank, text, a, o) == Ok(b)
    ensures SpliceStep(bank, s, o).Ok? && Agree(text, b, SpliceStep(bank, s, o).value)
  {
    hide Fits, Prefix, Widen, Extend, PeekAt, ApplyStep;
    StepFacts(bank, text, a, o, b);
    var piece := PeekAt(bank, a.bankPos, Width(o)).value;
    assert b.out == a.out + piece && b.bankPos == a.bankPos + Width(o) && b.strPos == a.strPos;
    var t := Opened(s);
    var r := t.(bankPos := t.bankPos + Width(o), splices := Extend(t.splices, piece));
    assert SpliceStep(bank, s, o) == Ok(r);
    hide SpliceStep, Moved, Source, Pos;
    OpenAgree(text, a, s);
    ExtendFits(t.splices, piece, |text|);
    ExtendFits(t.splices, piece, r.oldPos);
    PrefixExtend(text, t.splices, piece);
    assert text[LastEnd(r.splices)..r.oldPos] == "";
    assert Placed(r, |text|);
    assert Agree(text, b, r);
  }

  lemma {:induction false} StepAgree(bank: string, text: string, a: Applied, s: Splicing, o: Op, b: Applied)
    requires Agree(text, a, s) && Parsed(o) && ApplyStep(bank, text, a, o) == Ok(b)
    ensures SpliceStep(bank, s, o).Ok? && Agree(text, b, SpliceStep(bank, s, o).value)
  {
    match o.opcode
    case Keep => KeepAgree(bank, text, a, s, o, b);
    case Delete => DeleteAgree(bank, text, a, s, o, b);
    case Insert => InsertAgree(bank, text, a, s, o, b);
  }

  lemma {:induction false} FoldAgree(bank: string, text: string, ops: seq<Op>)
    requires AllParsed(ops) && Fold(ApplyFn(bank, text), AppliedInit, ops).Ok?
    ensures Fold(SpliceFn(bank), SplicingInit, ops).Ok?
    ensures Agree(text, Fold(ApplyFn(bank, text), AppliedInit, ops).value, Fold(SpliceFn(bank), SplicingInit, ops).value)
  {
    if ops == [] {
      assert text[0..0] == "";
    } else {
      var front, o := ops[..|ops| - 1], ops[|ops| - 1];
      assert ops == front + [o];
      FoldSnoc(ApplyFn(bank, text), AppliedInit, front, o);
      FoldSnoc(SpliceFn(bank), SplicingInit, front, o);
      FoldAgree(bank, text, front);
      var a := Fold(ApplyFn(bank, text), AppliedInit, front).value;
      var s := Fold(SpliceFn(bank), SplicingInit, front).value;
      assert ApplyFn(bank, text)(a, o) == ApplyStep(bank, text, a, o);
      assert SpliceFn(bank)(s, o) == SpliceStep(bank, s, o);
      StepAgree(bank, text, a, s, o, ApplyStep(bank, text, a, o).value);
    }
  }

  /** Once the loop has read the whole changeset, the splices it built,
      made on the text, give what `applyToText` gives. */
  lemma {:induction false} AgreeSpliced(text: string, a: Applied, s: Splicing)
    requires Agree(text, a, s)
    ensures Fits(s.splices, |text|) && 0 <= a.strPos <= |text|
    ensures Spliced(text, s.splices) == a.out + text[a.strPos..]
  {
    FitsWiden(s.splices, s.oldPos, |text|);
    var e := LastEnd(s.splices);
    assert text[e..s.oldPos] + text[s.oldPos..] == text[e..];
  }

  /** Whenever `applyToText(cs, text)` succeeds, `toSplices(cs)` does too,
      its splices fit the text, and making them gives the same text. */
  lemma {:induction false} SplicesApply(cs: string, text: string)
    requires ApplyToTextSpec(cs, text).Ok?
    ensures ToSplicesSpec(cs).Ok? && Fits(ToSplicesSpec(cs).value, |text|)
    ensures Spliced(text, ToSplicesSpec(cs).value) == ApplyToTextSpec(cs, text).value
  {
    ApplyToTextSpecCases(cs, text);
    var c := Unpack(cs).value;
    var st := ParseOps(c.ops);
    var v := Visible(st);
    ForOfOk(ApplyFn(c.charBank, text), AppliedInit, st);
    ForOfOk(SpliceFn(c.charBank), SplicingInit, st);
    hide *;
    FoldAgree(c.charBank, text, v);
    var a := Fold(ApplyFn(c.charBank, text), AppliedInit, v).value;
    var s := Fold(SpliceFn(c.charBank), SplicingInit, v).value;
    ToSplicesSpecOk(cs, s);
    AgreeSpliced(text, a, s);
  }

  // ---------------------------------------------------------------- toSplices

  /** `toSplices(cs)`. */
  method ToSplices(cs: string) returns (r: Result<seq<Splice>>)
    ensures r == ToSplicesSpec(cs)
  {
    var u := Unpack(cs);
    if u.Err? {
      return Err(u.error);
    }
    var c := u.value;
    var res := SpliceOps(c.charBank, c.ops);
    if res.Err? {
      return Err(res.error);
    }
    return Ok(res.value.splices);
  }

  /** The loop of `toSplices`: the splices are built in place, the char
      bank read through a string iterator. */
  method SpliceOps(bank: string, ops: string) returns (r: Result<Splicing>)
    ensures r == ForOf(SpliceFn(bank), SplicingInit, ParseOps(ops))
  {
    ghost var st := ParseOps(ops);
    ghost var step := SpliceFn(bank);
    var splices: seq<Splice> := [];
    var oldPos := 0;
    var charIter := new StringIterator(bank);
    var inSplice := false;
    assert Fold(step, SplicingInit, []) == Ok(Splicing(oldPos, splices, inSplice, charIter.curIndex));
    assert AllParsed(st.ops) && (OpenStream(st).Fail? ==> Visible(st) == [] && st.fault);
    var start := OpIter.Open(ops);
    if start.Err? {
      ForOfEnd(step, SplicingInit, st, []);
      return Err(start.error);
    }
    var it := start.value;
    ghost var done: seq<Op> := [];
    while it.HasNext()
      invariant it.Valid() && it.opsStr == ops && charIter.Valid() && charIter.str == bank && fresh(charIter)
      invariant done + it.rest.ops == st.ops && it.rest.fault == st.fault && AllParsed(it.rest.ops)
      invariant inSplice ==> splices != []
      invariant Fold(step, SplicingInit, done) == Ok(Splicing(oldPos, splices, inSplice, charIter.curIndex))
      decreases |it.rest.ops|
    {
      ghost var before := it.rest;
      var next := it.Next();
      if next.Err? {
        ForOfThrows(step, SplicingInit, st, done, before);
        return Err(next.error);
      }
      var op := next.value;
      StreamAdvance(st, done, before, op, it.rest);
      FoldSnoc(step, SplicingInit, done, op);
      ghost var s: Splicing := Splicing(oldPos, splices, inSplice, charIter.curIndex);
      assert step(s, op) == SpliceStep(bank, s, op);
      var res := SpliceOp(bank, charIter, op, oldPos, splices, inSplice);
      if res.Err? {
        ForOfStep(step, SplicingInit, st, done, op, it.rest.ops);
        return Err(res.error);
      }
      oldPos, splices, inSplice := res.value.oldPos, res.value.splices, res.value.inSplice;
      done := done + [op];
    }
    assert done == st.ops && !st.fault;
    ForOfEnd(step, SplicingInit, st, done);
    return Ok(Splicing(oldPos, splices, inSplice, charIter.curIndex));
  }

  /** One turn of the loop of `toSplices`, on its variables. */
  method SpliceOp(bank: string, charIter: StringIterator, op: Op, oldPos: int, splices: seq<Splice>, inSplice: bool)
    returns (r: Result<Splicing>)
    requires charIter.Valid() && charIter.str == bank && Parsed(op) && (inSplice ==> splices != [])
    modifies charIter
    ensures charIter.Valid()
    ensures r == SpliceStep(bank, Splicing(oldPos, splices, inSplice, old(charIter.curIndex)), op)
    ensures r.Ok? ==> r.value.bankPos == charIter.curIndex
  {
    var s: Splicing := Splicing(oldPos, splices, inSplice, charIter.curIndex);
    var chars: nat := op.chars;
    hide *;
    if op.opcode == Keep {
      KeepStepIs(bank, s, op);
      return Ok(s.(oldPos := oldPos + op.chars, inSplice := false));
    }
    var t := Opened(s);
    if op.opcode == Delete {
      DeleteStepIs(bank, s, op);
      return Ok(t.(oldPos := oldPos + op.chars, splices := Widen(t.splices, op.chars)));
    }
    var piece := charIter.Take(chars);
    InsertStepIs(bank, s, op, piece);
    if piece.Err? {
      return Err(piece.error);
    }
    return Ok(t.(bankPos := charIter.curIndex, splices := Extend(t.splices, piece.value)));
  }

  // ---------------------------------------------------------------- characterRangeFollow

  /** The range as the loop carries it, with the length change of the
      splices already passed. */
  datatype Range = Range(start: int, end: int, shift: int)

  /** One splice, in the coordinates the earlier splices leave: it swallows
      the range (the range collapses to before or after its new text), lies
      before it (the range moves), lies after it (nothing moves), lies
      inside it (the end moves), or overlaps its start or its end. */
  function RangeStep(r: Range, sp: Splice, insertionsAfter: bool): (q: Range)
    ensures q.shift == r.shift + |sp.text| - (sp.end - sp.start)
  {
    var spliceStart := sp.start + r.shift;
    var spliceEnd := sp.end + r.shift;
    var newTextLength := |sp.text|;
    var thisLengthChange := newTextLength - (spliceEnd - spliceStart);
    var moved :=
      if spliceStart <= r.start && spliceEnd >= r.end then
        if insertionsAfter then (spliceStart, spliceStart) else (spliceStart + newTextLength, spliceStart + newTextLength)
      else if spliceEnd <= r.start then (r.start + thisLengthChange, r.end + thisLengthChange)
      else if spliceStart >= r.end then (r.start, r.end)
      else if spliceStart >= r.start && spliceEnd <= r.end then (r.start, r.end + thisLengthChange)
      else if spliceEnd < r.end then (spliceStart + newTextLength, r.end + thisLengthChange)
      else (r.start, spliceStart);
    Range(moved.0, moved.1, r.shift + thisLengthChange)
  }

  function RangeFrom(r: Range, sps: seq<Splice>, insertionsAfter: bool): Range {
    if sps == [] then r else RangeStep(RangeFrom(r, sps[..|sps| - 1], insertionsAfter), sps[|sps| - 1], insertionsAfter)
  }

  /** What `characterRangeFollow(cs, startChar, endChar, insertionsAfter)`
      returns or throws. */
  function CharacterRangeFollowSpec(cs: string, startChar: int, endChar: int, insertionsAfter: bool): Result<(int, int)> {
    var sps :- ToSplicesSpec(cs);
    var r := RangeFrom(Range(startChar, endChar, 0), sps, insertionsAfter);
    Ok((r.start, r.end))
  }

  lemma {:induction false} CharacterRangeFollowCases(cs: string, startChar: int, endChar: int, insertionsAfter: bool)
    ensures CharacterRangeFollowSpec(cs, startChar, endChar, insertionsAfter)
            == match ToSplicesSpec(cs)
               case Err(e) => Err(e)
               case Ok(sps) => var q := RangeFrom(Range(startChar, endChar, 0), sps, insertionsAfter); Ok((q.start, q.end))
  {
  }

  method CharacterRangeFollow(cs: string, startChar: int, endChar: int, insertionsAfter: bool)
    returns (r: Result<(int, int)>)
    ensures r == CharacterRangeFollowSpec(cs, startChar, endChar, insertionsAfter)
  {
    CharacterRangeFollowCases(cs, startChar, endChar, insertionsAfter);
    hide CharacterRangeFollowSpec, ToSplicesSpec;
    var newStartChar := startChar;
    var newEndChar := endChar;
    var found := ToSplices(cs);
    if found.Err? {
      assert CharacterRangeFollowSpec(cs, startChar, endChar, insertionsAfter) == Err(found.error);
      return Err(found.error);
    }
    var splices := found.value;
    var lengthChangeSoFar := 0;
    assert splices[..0] == [];
    assert RangeFrom(Range(startChar, endChar, 0), [], insertionsAfter) == Range(startChar, endChar, 0);
    for i := 0 to |splices|
      invariant RangeFrom(Range(startChar, endChar, 0), splices[..i], insertionsAfter)
                == Range(newStartChar, newEndChar, lengthChangeSoFar)
    {
      ghost var prev := Range(newStartChar, newEndChar, lengthChangeSoFar);
      var splice := splices[i];
      var spliceStart := splice.start + lengthChangeSoFar;
      var spliceEnd := splice.end + lengthChangeSoFar;
      var newTextLength := |splice.text|;
      var thisLengthChange := newTextLength - (spliceEnd - spliceStart);
      if spliceStart <= newStartChar && spliceEnd >= newEndChar {
        if insertionsAfter {
          newStartChar, newEndChar := spliceStart, spliceStart;
        } else {
          newStartChar, newEndChar := spliceStart + newTextLength, spliceStart + newTextLength;
        }
      } else if spliceEnd <= newStartChar {
        newStartChar := newStartChar + thisLengthChange;
        newEndChar := newEndChar + thisLengthChange;
      } else if spliceStart >= newEndChar {
      } else if spliceStart >= newStartChar && spliceEnd <= newEndChar {
        newEndChar := newEndChar + thisLengthChange;
      } else if spliceEnd < newEndChar {
        newStartChar := spliceStart + newTextLength;
        newEndChar := newEndChar + thisLengthChange;
      } else {
        newEndChar := spliceStart;
      }
      lengthChangeSoFar := lengthChangeSoFar + thisLengthChange;
      assert Range(newStartChar, newEndChar, lengthChangeSoFar) == RangeStep(prev, splice, insertionsAfter);
      assert splices[..i + 1][..i] == splices[..i];
      assert RangeFrom(Range(startChar, endChar, 0), splices[..i + 1], insertionsAfter)
             == RangeStep(prev, splice, insertionsAfter);
    }
    assert splices[..|splices|] == splices;
    assert CharacterRangeFollowSpec(cs, startChar, endChar, insertionsAfter) == Ok((newStartChar, newEndChar));
    return Ok((newStartChar, newEndChar));
  }

  /** A range that does not run backwards never comes out running
      backwards. */
  lemma {:induction false} RangeStaysOrdered(r: Range, sps: seq<Splice>, insertionsAfter: bool)
    requires r.start <= r.end
    ensures RangeFrom(r, sps, insertionsAfter).start <= RangeFrom(r, sps, insertionsAfter).end
  {
    if sps != [] {
      RangeStaysOrdered(r, sps[..|sps| - 1], insertionsAfter);
    }
  }

  /** Splices that all start after the range leave it where it is: each
      one, moved by the length changes before it, still starts after the
      range. */
  lemma {:induction false} RangeAfterSplices(r: Range, sps: seq<Splice>, insertionsAfter: bool)
    requires r.start <= r.end && r.shift == 0
    requires Fits(sps, LastEnd(sps)) && forall i :: 0 <= i < |sps| ==> sps[i].start > r.end
    ensures var q := RangeFrom(r, sps, insertionsAfter);
            q.start == r.start && q.end == r.end && (sps != [] ==> q.shift >= sps[0].start - LastEnd(sps))
  {
    if sps != [] {
      var front, last := sps[..|sps| - 1], sps[|sps| - 1];
      if front != [] {
        assert front[|front| - 1] == sps[|sps| - 2];
        assert sps[|sps| - 2].end <= last.start;
      }
      assert Fits(front, LastEnd(front)) by {
        if front != [] {
          assert forall i :: 0 <= i < |front| ==> front[i].end <= sps[|sps| - 2].end;
        }
      }
      RangeAfterSplices(r, front, insertionsAfter);
      var p := RangeFrom(r, front, insertionsAfter);
      if front != [] {
        assert front[0] == sps[0];
        assert sps[0].start <= sps[|sps| - 2].end;
      }
      assert p.shift >= sps[0].start - LastEnd(front) || front == [];
      assert last.start + p.shift > r.end;
    }
  }

  /** The identity changeset leaves every range where it is. */
  lemma {:induction false} RangeFollowIdentity(n: nat, startChar: int, endChar: int, insertionsAfter: bool)
    ensures CharacterRangeFollowSpec(Identity(n), startChar, endChar, insertionsAfter) == Ok((startChar, endChar))
  {
    UnpackPack(n, n, "", "");
    assert ParseOps("") == Stream([], false) by {
      ParseOpsRoundTrip([]);
    }
  }

  /** Applied to a changeset whose splices all start after the range, the
      range comes out unchanged. */
  lemma {:induction false} RangeFollowAfter(cs: string, startChar: int, endChar: int, insertionsAfter: bool)
    requires startChar <= endChar && ToSplicesSpec(cs).Ok?
    requires forall i :: 0 <= i < |ToSplicesSpec(cs).value| ==> ToSplicesSpec(cs).value[i].start > endChar
    ensures CharacterRangeFollowSpec(cs, startChar, endChar, insertionsAfter) == Ok((startChar, endChar))
  {
    var sps := ToSplicesSpec(cs).value;
    CharacterRangeFollowCases(cs, startChar, endChar, insertionsAfter);
    hide CharacterRangeFollowSpec, ToSplicesSpec, RangeFrom;
    ToSplicesFit(cs);
    assert Fits(sps, LastEnd(sps)) by {
      if sps != [] {
        assert forall i :: 0 <= i < |sps| - 1 ==> sps[i].end <= sps[|sps| - 1].start;
      }
    }
    RangeAfterSplices(Range(startChar, endChar, 0), sps, insertionsAfter);
  }

  /** The range that comes out does not run backwards when the one that
      goes in does not. */
  lemma {:induction false} RangeFollowOrdered(cs: string, startChar: int, endChar: int, insertionsAfter: bool)
    requires startChar <= endChar && CharacterRangeFollowSpec(cs, startChar, endChar, insertionsAfter).Ok?
    ensures var q := CharacterRangeFollowSpec(cs, startChar, endChar, insertionsAfter).value;
            q.0 <= q.1
  {
    RangeStaysOrdered(Range(startChar, endChar, 0), ToSplicesSpec(cs).value, insertionsAfter);
  }
}
