/** `applyToText` (Changeset.js lines 1057-1093) read from the front: an op
    list is a function from a text to a text that eats the char bank and the
    text from their starts.  In this form, what `compose` (lines 1396-1425)
    promises can be proved: the composed changeset does to a text what the
    first changeset followed by the second does. */
module Sequential {
  import opened Results
  import opened Ops
  import opened Texts
  import opened Codec
  import opened OpIters
  import opened Cursors
  import opened Zips
  import opened Apply
  import opened Replays
  import opened Composition

  /** One op at the front of the bank and the text: what it writes, and
      what is left of the bank and of the text.  Its newline count is
      checked against the span it covers, as `applyToText` checks it. */
  function Front(bank: string, text: string, o: Op): Result<(string, string, string)> {
    var n := Width(o);
    match o.opcode
    case Null => Ok(("", bank, text))
    case Insert =>
      var piece :- PeekAt(bank, 0, n);
      if o.lines != Count(piece, '\n') then Err(NewlineCountWrong) else Ok((piece, bank[n..], text))
    case Delete =>
      var piece :- PeekAt(text, 0, n);
      if o.lines != Count(piece, '\n') then Err(NewlineCountWrong) else Ok(("", bank, text[n..]))
    case Keep =>
      var piece :- PeekAt(text, 0, n);
      if o.lines != Count(piece, '\n') then Err(NewlineCountWrong) else Ok((piece, bank, text[n..]))
  }

  /** The ops applied one by one from the front; the text they do not
      reach is kept. */
  function Sem(bank: string, text: string, ops: seq<Op>): Result<string>
    decreases |ops|
  {
    if ops == [] then Ok(text)
    else
      var f :- Front(bank, text, ops[0]);
      var rest :- Sem(f.1, f.2, ops[1..]);
      Ok(f.0 + rest)
  }

  lemma {:induction false} SemCons(bank: string, text: string, o: Op, rest: seq<Op>)
    ensures Sem(bank, text, [o] + rest)
            == match Front(bank, text, o)
               case Err(e) => Err(e)
               case Ok(f) => (match Sem(f.1, f.2, rest) case Err(e) => Err(e) case Ok(s) => Ok(f.0 + s))
  {
    assert ([o] + rest)[0] == o;
    assert ([o] + rest)[1..] == rest;
  }

  /** One turn of the `applyToText` loop is one op read from the front of
      what is left of the bank and the text. */
  lemma {:induction false} StepFront(bank: string, text: string, a: Applied, o: Op)
    requires 0 <= a.bankPos <= |bank| && 0 <= a.strPos <= |text|
    ensures var m := ApplyStep(bank, text, a, o);
            var f := Front(bank[a.bankPos..], text[a.strPos..], o);
            && (m.Err? <==> f.Err?)
            && (m.Err? ==> m.error == f.error)
            && (m.Ok? ==> && 0 <= m.value.bankPos <= |bank| && 0 <= m.value.strPos <= |text|
                          && m.value.out == a.out + f.value.0
                          && bank[m.value.bankPos..] == f.value.1 && text[m.value.strPos..] == f.value.2)
  {
    var n := Width(o);
    if a.bankPos + n <= |bank| {
      assert bank[a.bankPos..a.bankPos + n] == bank[a.bankPos..][0..n];
      assert bank[a.bankPos + n..] == bank[a.bankPos..][n..];
    }
    if a.strPos + n <= |text| {
      assert text[a.strPos..a.strPos + n] == text[a.strPos..][0..n];
      assert text[a.strPos + n..] == text[a.strPos..][n..];
    }
  }

  /** The loop of `applyToText` from state `a` agrees with the front
      reading of what is left of the bank and the text: both fail with the
      same error, or the loop's output followed by the unread text is its
      earlier output followed by the front reading. */
  ghost predicate Agrees(bank: string, text: string, a: Applied, ops: seq<Op>)
    requires 0 <= a.bankPos <= |bank| && 0 <= a.strPos <= |text|
  {
    var r := Run(bank, text, a, ops);
    var s := Sem(bank[a.bankPos..], text[a.strPos..], ops);
    && (r.Err? <==> s.Err?)
    && (r.Err? ==> r.error == s.error)
    && (r.Ok? ==> && 0 <= r.value.bankPos <= |bank| && 0 <= r.value.strPos <= |text|
                  && r.value.out + text[r.value.strPos..] == a.out + s.value)
  }

  lemma {:induction false} RunSem(bank: string, text: string, a: Applied, ops: seq<Op>)
    requires 0 <= a.bankPos <= |bank| && 0 <= a.strPos <= |text|
    ensures Agrees(bank, text, a, ops)
    decreases |ops|
  {
    if ops == [] {
      assert Run(bank, text, a, []) == Ok(a);
      assert Sem(bank[a.bankPos..], text[a.strPos..], []) == Ok(text[a.strPos..]);
    } else {
      StepFront(bank, text, a, ops[0]);
      var m := ApplyStep(bank, text, a, ops[0]);
      if m.Ok? {
        RunSem(bank, text, m.value, ops[1..]);
      }
      RunSemStep(bank, text, a, ops);
    }
  }

  /** One step of the induction behind `RunSem`. */
  lemma {:induction false} RunSemStep(bank: string, text: string, a: Applied, ops: seq<Op>)
    requires ops != [] && 0 <= a.bankPos <= |bank| && 0 <= a.strPos <= |text|
    requires var m := ApplyStep(bank, text, a, ops[0]);
             m.Ok? ==> && 0 <= m.value.bankPos <= |bank| && 0 <= m.value.strPos <= |text|
                       && Agrees(bank, text, m.value, ops[1..])
    ensures Agrees(bank, text, a, ops)
  {
    var m := ApplyStep(bank, text, a, ops[0]);
    StepFront(bank, text, a, ops[0]);
    RunSplit(bank, text, a, ops);
    SemCons(bank[a.bankPos..], text[a.strPos..], ops[0], ops[1..]);
    assert ops == [ops[0]] + ops[1..];
    if m.Ok? {
      RunSemOk(bank, text, a, ops[0], ops[1..], m.value);
    }
  }

  /** The successful case of `RunSemStep`. */
  lemma {:induction false} RunSemOk(bank: string, text: string, a: Applied, o: Op, rest: seq<Op>, m: Applied)
    requires 0 <= a.bankPos <= |bank| && 0 <= a.strPos <= |text|
    requires 0 <= m.bankPos <= |bank| && 0 <= m.strPos <= |text|
    requires ApplyStep(bank, text, a, o) == Ok(m)
    requires Agrees(bank, text, m, rest)
    ensures var f := Front(bank[a.bankPos..], text[a.strPos..], o);
            && f.Ok?
            && var s' := Sem(f.value.1, f.value.2, rest);
            var r' := Run(bank, text, m, rest);
            && (r'.Err? <==> s'.Err?)
            && (r'.Err? ==> r'.error == s'.error)
            && (r'.Ok? ==> && 0 <= r'.value.bankPos <= |bank| && 0 <= r'.value.strPos <= |text|
                           && r'.value.out + text[r'.value.strPos..] == a.out + (f.value.0 + s'.value))
  {
    StepFront(bank, text, a, o);
    var f := Front(bank[a.bankPos..], text[a.strPos..], o);
    var r', s' := Run(bank, text, m, rest), Sem(f.value.1, f.value.2, rest);
    assert m.out == a.out + f.value.0;
    assert bank[m.bankPos..] == f.value.1 && text[m.strPos..] == f.value.2;
    hide Front, ApplyStep, Run, Sem, Fold, PeekAt, Count;
    if r'.Ok? {
      assert r'.value.out + text[r'.value.strPos..] == (a.out + f.value.0) + s'.value;
      assert (a.out + f.value.0) + s'.value == a.out + (f.value.0 + s'.value);
    }
  }

  /** A run over a non-empty list is its first step, then a run over the rest. */
  lemma {:induction false} RunSplit(bank: string, text: string, a: Applied, ops: seq<Op>)
    requires ops != []
    ensures Run(bank, text, a, ops)
            == match ApplyStep(bank, text, a, ops[0]) case Err(e) => Err(e) case Ok(m) => Run(bank, text, m, ops[1..])
  {
    assert ops == [ops[0]] + ops[1..];
    RunConcat(bank, text, a, [ops[0]], ops[1..]);
    RunOne(bank, text, a, ops[0]);
  }

  /** `applyToText` is the front reading of the changeset's ops on the
      text, and throws whenever the ops end in the error token. */
  lemma {:induction false} ApplyToTextSem(cs: string, text: string)
    requires Unpack(cs).Ok? && |text| == Unpack(cs).value.oldLen
    ensures var c := Unpack(cs).value;
            var st := ParseOps(c.ops);
            && (st.fault ==> ApplyToTextSpec(cs, text).Err?)
            && (!st.fault ==> ApplyToTextSpec(cs, text) == Sem(c.charBank, text, st.ops))
  {
    var c := Unpack(cs).value;
    var st := ParseOps(c.ops);
    ApplyToTextSpecCases(cs, text);
    ForOfOk(ApplyFn(c.charBank, text), AppliedInit, st);
    if !st.fault {
      assert Visible(st) == st.ops;
      assert ForOf(ApplyFn(c.charBank, text), AppliedInit, st) == Run(c.charBank, text, AppliedInit, st.ops);
      assert c.charBank[0..] == c.charBank && text[0..] == text;
      assert AppliedInit.bankPos == 0 && AppliedInit.strPos == 0 && AppliedInit.out == "";
      var r := Run(c.charBank, text, AppliedInit, st.ops);
      var s := Sem(c.charBank, text, st.ops);
      RunSem(c.charBank, text, AppliedInit, st.ops);
      if r.Ok? {
        assert ApplyToTextSpec(cs, text) == Ok(r.value.out + text[r.value.strPos..]);
        assert r.value.out + text[r.value.strPos..] == "" + s.value == s.value;
      } else {
        assert ApplyToTextSpec(cs, text) == Err(r.error);
      }
    }
  }
}
