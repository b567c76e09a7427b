/** Applying what a smart op assembler writes (Changeset.js lines 406-501)
    does to a text what applying the ops it was given, one after another,
    does: merging ops of one kind, writing pending deletes before pending
    inserts and leaving out a final plain keep change nothing that
    `applyToText` (lines 1057-1091) can see. */
module Replays {
  import opened Results
  import opened Ops
  import opened Texts
  import opened Codec
  import opened OpIters
  import opened Assemblers
  import opened Zips
  import opened Apply
  import opened Cursors

  /** The ops applied one after another to `text` from the loop state `a`,
      inserts reading `bank`: the loop of `applyToText`. */
  function Run(bank: string, text: string, a: Applied, ops: seq<Op>): Result<Applied> {
    Fold(ApplyFn(bank, text), a, ops)
  }

  // ---------------------------------------------------------------- runs

  lemma {:induction false} RunOne(bank: string, text: string, a: Applied, x: Op)
    ensures Run(bank, text, a, [x]) == ApplyStep(bank, text, a, x)
  {
    assert [x][..0] == [];
    assert Fold(ApplyFn(bank, text), a, []) == Ok(a);
    assert ApplyFn(bank, text)(a, x) == ApplyStep(bank, text, a, x);
  }

  lemma {:induction false} RunPair(bank: string, text: string, a: Applied, x: Op, y: Op)
    ensures Run(bank, text, a, [x, y])
            == match ApplyStep(bank, text, a, x) case Err(e) => Err(e) case Ok(m) => ApplyStep(bank, text, m, y)
  {
    assert [x, y][..1] == [x];
    RunOne(bank, text, a, x);
  }

  /** A run over two lists is a run over the first, then over the second
      from where the first stopped. */
  lemma {:induction false} RunConcat(bank: string, text: string, a: Applied, xs: seq<Op>, ys: seq<Op>)
    ensures Run(bank, text, a, xs + ys)
            == match Run(bank, text, a, xs) case Err(e) => Err(e) case Ok(m) => Run(bank, text, m, ys)
    decreases |ys|
  {
    if ys == [] {
      assert xs + ys == xs;
    } else {
      var front, y := ys[..|ys| - 1], ys[|ys| - 1];
      assert ys == front + [y];
      assert xs + ys == (xs + front) + [y];
      RunConcat(bank, text, a, xs, front);
      FoldSnoc(ApplyFn(bank, text), a, xs + front, y);
      if Run(bank, text, a, xs).Ok? {
        FoldSnoc(ApplyFn(bank, text), Run(bank, text, a, xs).value, front, y);
      }
    }
  }

  /** Splitting a successful run. */
  lemma {:induction false} RunSplit(bank: string, text: string, a: Applied, xs: seq<Op>, ys: seq<Op>, b: Applied)
    requires Run(bank, text, a, xs + ys) == Ok(b)
    ensures Run(bank, text, a, xs).Ok? && Run(bank, text, Run(bank, text, a, xs).value, ys) == Ok(b)
  {
    RunConcat(bank, text, a, xs, ys);
  }

  /** Joining two successful runs. */
  lemma {:induction false} RunJoin(bank: string, text: string, a: Applied, xs: seq<Op>, m: Applied, ys: seq<Op>, b: Applied)
    requires Run(bank, text, a, xs) == Ok(m) && Run(bank, text, m, ys) == Ok(b)
    ensures Run(bank, text, a, xs + ys) == Ok(b)
  {
    RunConcat(bank, text, a, xs, ys);
  }

  /** An op of no characters changes nothing when it applies. */
  lemma {:induction false} StepEmpty(bank: string, text: string, a: Applied, o: Op, b: Applied)
    requires o.chars == 0 && ApplyStep(bank, text, a, o) == Ok(b)
    ensures b == a
  {
    assert a.out + "" == a.out;
  }

  /** Where an op reads: inserts read the char bank, the others the text. */
  function Source(bank: string, text: string, o: Op): string {
    if o.opcode == Insert then bank else text
  }

  function Pos(a: Applied, o: Op): int {
    if o.opcode == Insert then a.bankPos else a.strPos
  }

  /** The loop state once an op has read `piece`. */
  function Moved(a: Applied, o: Op, piece: string): Applied {
    match o.opcode
    case Insert => a.(bankPos := a.bankPos + |piece|, out := a.out + piece)
    case Delete => a.(strPos := a.strPos + |piece|)
    case Keep => a.(strPos := a.strPos + |piece|, out := a.out + piece)
    case Null => a
  }

  /** A step that applies read its piece where the op points and counted
      its newlines right. */
  lemma {:induction false} StepFacts(bank: string, text: string, a: Applied, o: Op, b: Applied)
    requires o.opcode != Null && ApplyStep(bank, text, a, o) == Ok(b)
    ensures var r := PeekAt(Source(bank, text, o), Pos(a, o), Width(o));
            r.Ok? && o.lines == Count(r.value, '\n') && b == Moved(a, o, r.value)
  {
  }

  lemma {:induction false} StepOf(bank: string, text: string, a: Applied, o: Op, piece: string)
    requires o.opcode != Null
    requires PeekAt(Source(bank, text, o), Pos(a, o), Width(o)) == Ok(piece) && o.lines == Count(piece, '\n')
    ensures ApplyStep(bank, text, a, o) == Ok(Moved(a, o, piece))
  {
  }

  lemma {:induction false} MovedTwice(a: Applied, x: Op, y: Op, z: Op, u: string, v: string)
    requires x.opcode == y.opcode == z.opcode && x.opcode != Null
    ensures Moved(Moved(a, x, u), y, v) == Moved(a, z, u + v)
    ensures Pos(Moved(a, x, u), y) == Pos(a, x) + |u|
  {
    assert a.out + u + v == a.out + (u + v);
  }

  /** Two ops of one kind in a row do what one op with their characters
      and newlines added up does. */
  lemma {:induction false} StepMerge(bank: string, text: string, a: Applied, x: Op, y: Op, b: Applied)
    requires x.opcode == y.opcode && x.opcode != Null && x.chars >= 0 && y.chars >= 0
    requires Run(bank, text, a, [x, y]) == Ok(b)
    ensures ApplyStep(bank, text, a, x.(chars := x.chars + y.chars, lines := x.lines + y.lines)) == Ok(b)
  {
    hide *;
    var z := x.(chars := x.chars + y.chars, lines := x.lines + y.lines);
    RunPair(bank, text, a, x, y);
    var m := ApplyStep(bank, text, a, x).value;
    StepFacts(bank, text, a, x, m);
    StepFacts(bank, text, m, y, b);
    MergedOp(bank, text, a, x, y);
    var src := Source(bank, text, x);
    var u := PeekAt(src, Pos(a, x), Width(x)).value;
    var v := PeekAt(src, Pos(m, y), Width(y)).value;
    MovedTwice(a, x, y, z, u, v);
    PiecesJoin(src, Pos(a, x), Width(x), Width(y));
    CountAppend(u, v, '\n');
    StepOf(bank, text, a, z, u + v);
  }

  /** The merged op reads where the first one does, as far as both. */
  lemma {:induction false} MergedOp(bank: string, text: string, a: Applied, x: Op, y: Op)
    requires x.opcode == y.opcode && x.chars >= 0 && y.chars >= 0
    ensures var z := x.(chars := x.chars + y.chars, lines := x.lines + y.lines);
            && Width(z) == Width(x) + Width(y) && Source(bank, text, z) == Source(bank, text, x)
            && Source(bank, text, y) == Source(bank, text, x) && Pos(a, z) == Pos(a, x)
  {
  }

  lemma {:induction false} PiecesJoin(s: string, p: int, n: nat, k: nat)
    requires PeekAt(s, p, n).Ok? && PeekAt(s, p + n, k).Ok?
    ensures PeekAt(s, p, n + k) == Ok(PeekAt(s, p, n).value + PeekAt(s, p + n, k).value)
  {
    assert s[p..p + n + k] == s[p..p + n] + s[p + n..p + n + k];
  }

  /** A delete after a run of inserts does what it does before them: the
      inserts read the char bank and the delete reads the text. */
  lemma {:induction false} DeleteFirst(bank: string, text: string, x: Applied, ins: seq<Op>, d: Op, m: Applied, b: Applied)
    requires AllOf(ins, Insert) && d.opcode == Delete
    requires Run(bank, text, x, ins) == Ok(m) && ApplyStep(bank, text, m, d) == Ok(b)
    ensures ApplyStep(bank, text, x, d).Ok? && Run(bank, text, ApplyStep(bank, text, x, d).value, ins) == Ok(b)
    decreases |ins|
  {
    if ins == [] {
      RunNone(bank, text, x);
      RunNone(bank, text, ApplyStep(bank, text, x, d).value);
    } else {
      var front, i := ins[..|ins| - 1], ins[|ins| - 1];
      assert AllOf(front, Insert) && i.opcode == Insert;
      hide *;
      RunLast(bank, text, x, ins);
      var m0 := Run(bank, text, x, front).value;
      InsertThenDelete(bank, text, m0, i, d, b);
      var m1 := m0.(strPos := m0.strPos + Width(d));
      DeleteFirst(bank, text, x, front, d, m0, m1);
      var y := ApplyStep(bank, text, x, d).value;
      RunLast(bank, text, y, ins);
    }
  }

  lemma {:induction false} RunNone(bank: string, text: string, a: Applied)
    ensures Run(bank, text, a, []) == Ok(a)
  {
  }

  /** A run over a non-empty list ends with the step of its last op. */
  lemma {:induction false} RunLast(bank: string, text: string, a: Applied, ops: seq<Op>)
    requires ops != []
    ensures Run(bank, text, a, ops)
            == match Run(bank, text, a, ops[..|ops| - 1])
               case Err(e) => Err(e)
               case Ok(m) => ApplyStep(bank, text, m, ops[|ops| - 1])
  {
    assert ops == ops[..|ops| - 1] + [ops[|ops| - 1]];
    FoldSnoc(ApplyFn(bank, text), a, ops[..|ops| - 1], ops[|ops| - 1]);
  }

  /** An insert then a delete may be taken the other way round: the insert
      reads only the bank and the delete only the text. */
  lemma {:induction false} InsertThenDelete(bank: string, text: string, m0: Applied, i: Op, d: Op, b: Applied)
    requires i.opcode == Insert && d.opcode == Delete
    requires ApplyStep(bank, text, m0, i).Ok? && ApplyStep(bank, text, ApplyStep(bank, text, m0, i).value, d) == Ok(b)
    ensures ApplyStep(bank, text, m0, d) == Ok(m0.(strPos := m0.strPos + Width(d)))
    ensures ApplyStep(bank, text, m0.(strPos := m0.strPos + Width(d)), i) == Ok(b)
  {
  }

  /** Only keeps: the bank is not read, and what is kept is what the text
      would have copied anyway. */
  lemma {:induction false} KeepsOnly(bank: string, text: string, a: Applied, ks: seq<Op>, b: Applied)
    requires AllOf(ks, Keep) && 0 <= a.strPos <= |text|
    requires Run(bank, text, a, ks) == Ok(b)
    ensures b.bankPos == a.bankPos && a.strPos <= b.strPos <= |text|
    ensures b.out + text[b.strPos..] == a.out + text[a.strPos..]
    decreases |ks|
  {
    if ks != [] {
      var front, k := ks[..|ks| - 1], ks[|ks| - 1];
      assert ks == front + [k];
      assert AllOf(front, Keep) && k.opcode == Keep;
      FoldSnoc(ApplyFn(bank, text), a, front, k);
      var m := Run(bank, text, a, front).value;
      KeepsOnly(bank, text, a, front, m);
      var e := m.strPos + Width(k);
      assert text[m.strPos..] == text[m.strPos..e] + text[e..];
    }
  }

  /** The positions stay within the text and the bank. */
  lemma {:induction false} RunBounds(bank: string, text: string, a: Applied, ops: seq<Op>, b: Applied)
    requires 0 <= a.strPos <= |text| && Run(bank, text, a, ops) == Ok(b)
    ensures 0 <= b.strPos <= |text|
    decreases |ops|
  {
    if ops != [] {
      var front, o := ops[..|ops| - 1], ops[|ops| - 1];
      assert ops == front + [o];
      FoldSnoc(ApplyFn(bank, text), a, front, o);
      RunBounds(bank, text, a, front, Run(bank, text, a, front).value);
    }
  }

  // ---------------------------------------------------------------- merging

  /** What a merging assembler holds came from ops the decoder can
      produce: real opcodes and non-negative counts, the buffered op
      included. */
  ghost predicate MergeParsed(st: MergeState) {
    AllParsed(st.out) && (st.buf.opcode != Null ==> Parsed(st.buf)) && MergeInv(st)
  }

  /** The ops still buffered, as `toString()` would write them. */
  function Buffered(st: MergeState): seq<Op> {
    if st.buf.opcode == Null then []
    else if st.extra != 0 then [st.buf, st.buf.(chars := st.extra, lines := 0)]
    else [st.buf]
  }

  lemma {:induction false} OutputBuffered(st: MergeState)
    ensures MergeOutput(st) == st.out + Buffered(st)
  {
    if st.buf.opcode == Null {
      assert st.out + [] == st.out;
    }
  }

  lemma {:induction false} AllParsedAppend(xs: seq<Op>, ys: seq<Op>)
    requires AllParsed(xs) && AllParsed(ys)
    ensures AllParsed(xs + ys)
  {
    assert forall i :: 0 <= i < |xs + ys| ==> (xs + ys)[i] == if i < |xs| then xs[i] else ys[i - |xs|];
  }

  lemma {:induction false} MergeOutputParsed(st: MergeState)
    requires MergeParsed(st)
    ensures AllParsed(MergeOutput(st))
  {
    OutputBuffered(st);
    AllParsedAppend(st.out, Buffered(st));
  }

  lemma {:induction false} MergeAppendParsed(st: MergeState, op: Op)
    requires MergeParsed(st) && Parsed(op)
    ensures MergeParsed(MergeAppend(st, op))
  {
    if op.chars > 0 && !(st.buf.opcode == op.opcode && st.buf.attribs == op.attribs) {
      MergeOutputParsed(st);
      OutputBuffered(st);
    }
  }

  /** The buffered ops do what the buffered op with its in-line tail
      folded back in does. */
  lemma {:induction false} BufferedWhole(bank: string, text: string, c: Applied, st: MergeState, m: Applied)
    requires MergeParsed(st) && st.buf.opcode != Null
    requires Run(bank, text, c, Buffered(st)) == Ok(m)
    ensures ApplyStep(bank, text, c, st.buf.(chars := st.buf.chars + st.extra)) == Ok(m)
  {
    var buf := st.buf;
    if st.extra != 0 {
      var t0 := buf.(chars := st.extra, lines := 0);
      assert Buffered(st) == [buf, t0];
      StepMerge(bank, text, c, buf, t0, m);
      assert buf.(chars := buf.chars + t0.chars, lines := buf.lines + t0.lines) == buf.(chars := buf.chars + st.extra);
    } else {
      assert Buffered(st) == [buf];
      RunOne(bank, text, c, buf);
      assert buf.(chars := buf.chars + st.extra) == buf;
    }
  }

  /** A multi-line op like the buffered one joins it, tail and all. */
  lemma {:induction false} MergeLines(bank: string, text: string, c: Applied, st: MergeState, op: Op, m: Applied, b: Applied)
    requires MergeParsed(st) && Parsed(op) && op.chars > 0 && op.lines > 0
    requires st.buf.opcode == op.opcode && st.buf.attribs == op.attribs
    requires Run(bank, text, c, Buffered(st)) == Ok(m) && ApplyStep(bank, text, m, op) == Ok(b)
    ensures Run(bank, text, c, Buffered(MergeAppend(st, op))) == Ok(b)
  {
    var whole := st.buf.(chars := st.buf.chars + st.extra);
    BufferedWhole(bank, text, c, st, m);
    RunPair(bank, text, c, whole, op);
    StepMerge(bank, text, c, whole, op, b);
    var r := MergeAppend(st, op);
    assert Buffered(r) == [whole.(chars := whole.chars + op.chars, lines := whole.lines + op.lines)];
    RunOne(bank, text, c, Buffered(r)[0]);
  }

  /** An in-line op like an in-line buffered op joins it. */
  lemma {:induction false} MergeInLine(bank: string, text: string, c: Applied, st: MergeState, op: Op, m: Applied, b: Applied)
    requires MergeParsed(st) && Parsed(op) && op.chars > 0 && op.lines == 0 && st.buf.lines == 0
    requires st.buf.opcode == op.opcode && st.buf.attribs == op.attribs
    requires Run(bank, text, c, Buffered(st)) == Ok(m) && ApplyStep(bank, text, m, op) == Ok(b)
    ensures Run(bank, text, c, Buffered(MergeAppend(st, op))) == Ok(b)
  {
    hide Run, ApplyStep;
    var buf := st.buf;
    assert Buffered(st) == [buf];
    RunOne(bank, text, c, buf);
    RunPair(bank, text, c, buf, op);
    StepMerge(bank, text, c, buf, op, b);
    var r := MergeAppend(st, op);
    assert Buffered(r) == [buf.(chars := buf.chars + op.chars, lines := buf.lines + op.lines)];
    RunOne(bank, text, c, Buffered(r)[0]);
  }

  /** An in-line op after a multi-line buffered op grows its tail. */
  lemma {:induction false} MergeTail(bank: string, text: string, c: Applied, st: MergeState, op: Op, m: Applied, b: Applied)
    requires MergeParsed(st) && Parsed(op) && op.chars > 0 && op.lines == 0 && st.buf.lines != 0
    requires st.buf.opcode == op.opcode && st.buf.attribs == op.attribs
    requires Run(bank, text, c, Buffered(st)) == Ok(m) && ApplyStep(bank, text, m, op) == Ok(b)
    ensures Run(bank, text, c, Buffered(MergeAppend(st, op))) == Ok(b)
  {
    var buf := st.buf;
    var tail := buf.(chars := st.extra + op.chars, lines := 0);
    var r := MergeAppend(st, op);
    assert Buffered(r) == [buf, tail];
    RunPair(bank, text, c, buf, tail);
    if st.extra != 0 {
      var t0 := buf.(chars := st.extra, lines := 0);
      assert Buffered(st) == [buf, t0];
      RunPair(bank, text, c, buf, t0);
      var c1 := ApplyStep(bank, text, c, buf).value;
      RunPair(bank, text, c1, t0, op);
      StepMerge(bank, text, c1, t0, op, b);
      assert t0.(chars := t0.chars + op.chars, lines := t0.lines + op.lines) == tail;
    } else {
      assert Buffered(st) == [buf];
      assert op == tail;
      RunOne(bank, text, c, buf);
    }
  }

  /** Appending an op to a merging assembler: what it would write then
      does what it would have written before, followed by the op. */
  lemma {:induction false} MergeAppendRuns(bank: string, text: string, a: Applied, st: MergeState, op: Op, m: Applied, b: Applied)
    requires MergeParsed(st) && Parsed(op)
    requires Run(bank, text, a, MergeOutput(st)) == Ok(m) && ApplyStep(bank, text, m, op) == Ok(b)
    ensures Run(bank, text, a, MergeOutput(MergeAppend(st, op))) == Ok(b)
  {
    var r := MergeAppend(st, op);
    OutputBuffered(st);
    OutputBuffered(r);
    if op.chars == 0 {
      StepEmpty(bank, text, m, op, b);
    } else if st.buf.opcode == op.opcode && st.buf.attribs == op.attribs {
      RunSplit(bank, text, a, st.out, Buffered(st), m);
      var c := Run(bank, text, a, st.out).value;
      assert r.out == st.out;
      if op.lines > 0 {
        MergeLines(bank, text, c, st, op, m, b);
      } else if st.buf.lines == 0 {
        MergeInLine(bank, text, c, st, op, m, b);
      } else {
        MergeTail(bank, text, c, st, op, m, b);
      }
      RunJoin(bank, text, a, st.out, c, Buffered(r), b);
    } else {
      assert MergeOutput(r) == MergeOutput(st) + [op];
      RunOne(bank, text, m, op);
      RunJoin(bank, text, a, MergeOutput(st), m, [op], b);
    }
  }

  // ---------------------------------------------------------------- smart

  /** The ops a smart assembler writes once everything pending goes out:
      what is written, then the pending deletes, inserts and keeps. */
  function Pending(s: SmartState): seq<Op> {
    s.emitted + MergeOutput(s.minus) + MergeOutput(s.plus) + MergeOutput(s.keep)
  }

  lemma {:induction false} PendingFlushed(s: SmartState)
    ensures SmartFlushed(s).emitted == Pending(s)
  {
  }

  ghost predicate SmartParsed(s: SmartState) {
    AllParsed(s.emitted) && MergeParsed(s.minus) && MergeParsed(s.plus) && MergeParsed(s.keep)
  }

  lemma {:induction false} PendingParsed(s: SmartState)
    requires SmartParsed(s)
    ensures AllParsed(Pending(s))
  {
    MergeOutputParsed(s.minus);
    MergeOutputParsed(s.plus);
    MergeOutputParsed(s.keep);
    AllParsedAppend(s.emitted, MergeOutput(s.minus));
    AllParsedAppend(s.emitted + MergeOutput(s.minus), MergeOutput(s.plus));
    AllParsedAppend(s.emitted + MergeOutput(s.minus) + MergeOutput(s.plus), MergeOutput(s.keep));
  }

  lemma {:induction false} InitOutput()
    ensures MergeOutput(MergeInit) == [] && MergeParsed(MergeInit)
  {
  }

  /** Before a delete or an insert: pending keeps are written, which
      changes nothing about what would be written in the end. */
  lemma {:induction false} BeforeChange(s: SmartState)
    requires SmartInv(s) && SmartParsed(s)
    ensures var s1 := if s.last == Keep then KeepsFlushed(s) else s;
            Pending(s1) == Pending(s) && SmartParsed(s1) && MergeOutput(s1.keep) == []
            && Holds(s1.minus, Delete) && Holds(s1.plus, Insert)
  {
    InitOutput();
    if s.last == Keep {
      MergeOutputParsed(s.keep);
      AllParsedAppend(s.emitted, MergeOutput(s.keep));
      var s1 := KeepsFlushed(s);
      assert Pending(s1) == s.emitted + MergeOutput(s.keep) + [] + [] + [];
    }
  }

  /** Before a keep: pending deletes and inserts are written. */
  lemma {:induction false} BeforeKeep(s: SmartState)
    requires SmartInv(s) && SmartParsed(s)
    ensures var s1 := if s.last != Keep then PlusMinusFlushed(s) else s;
            Pending(s1) == Pending(s) && SmartParsed(s1)
            && MergeOutput(s1.minus) == [] && MergeOutput(s1.plus) == []
  {
    InitOutput();
    if s.last != Keep {
      MergeOutputParsed(s.minus);
      MergeOutputParsed(s.plus);
      AllParsedAppend(s.emitted, MergeOutput(s.minus));
      AllParsedAppend(s.emitted + MergeOutput(s.minus), MergeOutput(s.plus));
      var s1 := PlusMinusFlushed(s);
      assert Pending(s1) == s.emitted + MergeOutput(s.minus) + MergeOutput(s.plus) + [] + [];
    }
  }

  lemma {:induction false} DeleteRuns(bank: string, text: string, a: Applied, s: SmartState, op: Op, m: Applied, b: Applied)
    requires SmartInv(s) && SmartParsed(s) && Parsed(op) && op.opcode == Delete && op.chars != 0
    requires Run(bank, text, a, Pending(s)) == Ok(m) && ApplyStep(bank, text, m, op) == Ok(b)
    ensures Run(bank, text, a, Pending(SmartAppend(s, op))) == Ok(b)
    ensures SmartParsed(SmartAppend(s, op))
  {
    BeforeChange(s);
    var s1 := if s.last == Keep then KeepsFlushed(s) else s;
    var E, M, P := s1.emitted, MergeOutput(s1.minus), MergeOutput(s1.plus);
    assert Pending(s1) == (E + M) + P + [];
    assert (E + M) + P + [] == (E + M) + P;
    HoldsOutput(s1.plus, Insert, false);
    RunSplit(bank, text, a, E + M, P, m);
    var x := Run(bank, text, a, E + M).value;
    DeleteFirst(bank, text, x, P, op, m, b);
    var y := ApplyStep(bank, text, x, op).value;
    RunSplit(bank, text, a, E, M, x);
    var e := Run(bank, text, a, E).value;
    MergeAppendRuns(bank, text, e, s1.minus, op, x, y);
    MergeAppendParsed(s1.minus, op);
    var M2 := MergeOutput(MergeAppend(s1.minus, op));
    RunJoin(bank, text, a, E, e, M2, y);
    RunJoin(bank, text, a, E + M2, y, P, b);
    assert Pending(SmartAppend(s, op)) == E + M2 + P + [];
    assert E + M2 + P + [] == E + M2 + P;
  }

  lemma {:induction false} InsertRuns(bank: string, text: string, a: Applied, s: SmartState, op: Op, m: Applied, b: Applied)
    requires SmartInv(s) && SmartParsed(s) && Parsed(op) && op.opcode == Insert && op.chars != 0
    requires Run(bank, text, a, Pending(s)) == Ok(m) && ApplyStep(bank, text, m, op) == Ok(b)
    ensures Run(bank, text, a, Pending(SmartAppend(s, op))) == Ok(b)
    ensures SmartParsed(SmartAppend(s, op))
  {
    BeforeChange(s);
    var s1 := if s.last == Keep then KeepsFlushed(s) else s;
    var E, M, P := s1.emitted, MergeOutput(s1.minus), MergeOutput(s1.plus);
    assert Pending(s1) == (E + M) + P + [];
    assert (E + M) + P + [] == (E + M) + P;
    RunSplit(bank, text, a, E + M, P, m);
    var x := Run(bank, text, a, E + M).value;
    MergeAppendRuns(bank, text, x, s1.plus, op, m, b);
    MergeAppendParsed(s1.plus, op);
    var P2 := MergeOutput(MergeAppend(s1.plus, op));
    RunJoin(bank, text, a, E + M, x, P2, b);
    assert Pending(SmartAppend(s, op)) == E + M + P2 + [];
    assert E + M + P2 + [] == E + M + P2;
  }

  lemma {:induction false} KeepRuns(bank: string, text: string, a: Applied, s: SmartState, op: Op, m: Applied, b: Applied)
    requires SmartInv(s) && SmartParsed(s) && Parsed(op) && op.opcode == Keep && op.chars != 0
    requires Run(bank, text, a, Pending(s)) == Ok(m) && ApplyStep(bank, text, m, op) == Ok(b)
    ensures Run(bank, text, a, Pending(SmartAppend(s, op))) == Ok(b)
    ensures SmartParsed(SmartAppend(s, op))
  {
    BeforeKeep(s);
    var s1 := if s.last != Keep then PlusMinusFlushed(s) else s;
    var E, K := s1.emitted, MergeOutput(s1.keep);
    var K2 := MergeOutput(MergeAppend(s1.keep, op));
    assert Pending(s1) == E + [] + [] + K;
    assert Pending(SmartAppend(s, op)) == E + [] + [] + K2;
    assert MergeParsed(s1.keep);
    MergeAppendParsed(s1.keep, op);
    assert SmartParsed(SmartAppend(s, op));
    assert E + [] + [] + K == E + K;
    assert E + [] + [] + K2 == E + K2;
    RunSplit(bank, text, a, E, K, m);
    var x := Run(bank, text, a, E).value;
    MergeAppendRuns(bank, text, x, s1.keep, op, m, b);
    RunJoin(bank, text, a, E, x, K2, b);
  }

  /** Appending an op to a smart assembler: what it would write then does
      what it would have written before, followed by the op. */
  lemma {:induction false} SmartAppendRuns(bank: string, text: string, a: Applied, s: SmartState, op: Op, m: Applied, b: Applied)
    requires SmartInv(s) && SmartParsed(s) && Parsed(op)
    requires Run(bank, text, a, Pending(s)) == Ok(m) && ApplyStep(bank, text, m, op) == Ok(b)
    ensures Run(bank, text, a, Pending(SmartAppend(s, op))) == Ok(b)
    ensures SmartParsed(SmartAppend(s, op))
  {
    if op.chars == 0 {
      StepEmpty(bank, text, m, op, b);
    } else if op.opcode == Delete {
      DeleteRuns(bank, text, a, s, op, m, b);
    } else if op.opcode == Insert {
      InsertRuns(bank, text, a, s, op, m, b);
    } else {
      KeepRuns(bank, text, a, s, op, m, b);
    }
  }

  /** Without `endDocument()`: the ops a smart assembler writes do what
      the ops it was given do, one after another. */
  lemma {:induction false} SmartFromRuns(bank: string, text: string, a: Applied, ops: seq<Op>, b: Applied)
    requires AllParsed(ops) && Run(bank, text, a, ops) == Ok(b)
    ensures Run(bank, text, a, Pending(SmartFrom(SmartInit, ops))) == Ok(b)
    ensures SmartParsed(SmartFrom(SmartInit, ops))
    decreases |ops|
  {
    if ops == [] {
      InitOutput();
      assert Pending(SmartInit) == [];
    } else {
      var front, op := ops[..|ops| - 1], ops[|ops| - 1];
      assert ops == front + [op];
      assert AllParsed(front) && Parsed(op);
      FoldSnoc(ApplyFn(bank, text), a, front, op);
      var m := Run(bank, text, a, front).value;
      SmartFromRuns(bank, text, a, front, m);
      SmartFromInv(front);
      SmartAppendRuns(bank, text, a, SmartFrom(SmartInit, front), op, m, b);
    }
  }

  /** `endDocument()` leaves out a final plain keep, which only copies
      text that the rest of the text is copied with anyway. */
  lemma {:induction false} SmartEndRuns(bank: string, text: string, a: Applied, s: SmartState, b: Applied)
    requires SmartInv(s) && SmartParsed(s) && 0 <= a.strPos <= |text|
    requires Run(bank, text, a, Pending(s)) == Ok(b)
    ensures SmartParsed(SmartEnd(s))
    ensures var r := Run(bank, text, a, Pending(SmartEnd(s)));
            r.Ok? && r.value.bankPos == b.bankPos && 0 <= r.value.strPos <= |text|
            && r.value.out + text[r.value.strPos..] == b.out + text[b.strPos..]
  {
    var k := s.keep;
    var X := s.emitted + MergeOutput(s.minus) + MergeOutput(s.plus);
    if k.buf.opcode == Keep && k.buf.attribs == [] {
      var k2 := MergeFlush(k, true);
      assert MergeOutput(k2) == k.out;
      OutputBuffered(k);
      assert Pending(s) == (X + k.out) + Buffered(k);
      assert Pending(SmartEnd(s)) == X + k.out;
      RunSplit(bank, text, a, X + k.out, Buffered(k), b);
      var c := Run(bank, text, a, X + k.out).value;
      RunBounds(bank, text, a, X + k.out, c);
      assert AllOf(Buffered(k), Keep);
      KeepsOnly(bank, text, c, Buffered(k), b);
    } else {
      MergeEndDocument(k);
      assert Pending(SmartEnd(s)) == Pending(s);
      RunBounds(bank, text, a, Pending(s), b);
    }
  }

  /** What a smart assembler writes after `endDocument()`, packed with the
      char bank its ops read, turns a text into what the ops given to it
      turn the text into, applied one after another, whenever they apply. */
  lemma {:induction false} ZipTextApplies(bank: string, text: string, ops: seq<Op>, newLen: int, b: Applied)
    requires AllParsed(ops) && Run(bank, text, AppliedInit, ops) == Ok(b)
    ensures 0 <= b.strPos <= |text|
    ensures ApplyToTextSpec(Pack(|text|, newLen, ZipText(ops), bank), text) == Ok(b.out + text[b.strPos..])
  {
    var s := SmartFrom(SmartInit, ops);
    SmartFromInv(ops);
    SmartFromRuns(bank, text, AppliedInit, ops, b);
    RunBounds(bank, text, AppliedInit, Pending(s), b);
    SmartEndRuns(bank, text, AppliedInit, s, b);
    var e := Pending(SmartEnd(s));
    var c := Run(bank, text, AppliedInit, e).value;
    PendingFlushed(SmartEnd(s));
    PendingParsed(SmartEnd(s));
    assert ZipText(ops) == OpsToString(e);
    AllParsedNoNulls(e);
    UnpackPackOps(|text|, newLen, e, bank);
    ParseOpsRoundTrip(e);
    assert ForOf(ApplyFn(bank, text), AppliedInit, ParseOps(OpsToString(e))) == Ok(c);
    ApplyToTextSpecCases(Pack(|text|, newLen, OpsToString(e), bank), text);
  }
}
