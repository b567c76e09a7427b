/** `checkRep` (Changeset.js lines 510-553): replays a changeset through a
    smart assembler, re-packs it and insists on getting the same string. */
module CheckReps {
  import opened Results
  import opened Texts
  import opened Ops
  import opened Codec
  import opened OpIters
  import opened Assemblers

  /** Every delete stays inside the old text and every insert inside the
      new one, counting from the start of the changeset. */
  ghost predicate InBounds(oldLen: int, newLen: int, ops: seq<Op>) {
    forall i :: 0 <= i < |ops| ==>
      (ops[i].opcode == Delete ==> Total(ops[..i + 1], {Keep, Delete}) <= oldLen)
      && (ops[i].opcode == Insert ==> Total(ops[..i + 1], {Keep, Insert}) <= newLen)
  }

  /** The loop's variables: `oldPos`, `calcNewLen`, `numInserted` and the
      assembler. */
  datatype Tally = Tally(oldPos: int, calcNewLen: int, numInserted: int, smart: SmartState)

  const TallyInit := Tally(0, 0, 0, SmartInit)

  /** One turn of the loop: count the op, check the bound its opcode
      asserts, hand the op to the assembler. */
  function CheckStep(oldLen: int, newLen: int, t: Tally, o: Op): (r: Result<Tally>)
    ensures r.Err? ==> r.error == InvalidChangeset
    ensures r.Ok? ==> r.value.smart == SmartAppend(t.smart, o)
  {
    if o.opcode == Keep then
      Ok(Tally(t.oldPos + o.chars, t.calcNewLen + o.chars, t.numInserted, SmartAppend(t.smart, o)))
    else if o.opcode == Delete then
      if t.oldPos + o.chars > oldLen then Err(InvalidChangeset)
      else Ok(t.(oldPos := t.oldPos + o.chars, smart := SmartAppend(t.smart, o)))
    else if o.opcode == Insert then
      if t.calcNewLen + o.chars > newLen then Err(InvalidChangeset)
      else Ok(t.(calcNewLen := t.calcNewLen + o.chars, numInserted := t.numInserted + o.chars,
                 smart := SmartAppend(t.smart, o)))
    else Ok(t.(smart := SmartAppend(t.smart, o)))
  }

  function Step(oldLen: int, newLen: int): (Tally, Op) -> Result<Tally> {
    (t, o) => CheckStep(oldLen, newLen, t, o)
  }

  /** `bank` padded with `?` up to `n` characters. */
  function Pad(bank: string, n: int): (r: string)
    ensures |r| == if |bank| < n then n else |bank|
    ensures r[..|bank|] == bank && forall k :: |bank| <= k < |r| ==> r[k] == '?'
    decreases n - |bank|
  {
    if |bank| < n then
      var r := Pad(bank + "?", n);
      assert r[..|bank|] == r[..|bank| + 1][..|bank|];
      r
    else bank
  }

  /** What `checkRep(cs)` returns or throws. */
  function CheckRepSpec(cs: string): (r: Result<string>)
    ensures r.Ok? ==> r.value == cs
  {
    var c :- Unpack(cs);
    var st := ParseOps(c.ops);
    var t :- ForOf(Step(c.oldLen, c.newLen), TallyInit, st);
    CheckFold(c.oldLen, c.newLen, st.ops);
    if Normalized(c, t) == cs then Ok(cs) else Err(InvalidChangeset)
  }

  /** The changeset `checkRep` packs after the loop: the remaining old
      characters count as kept, the char bank is cut or padded to the
      inserted characters and the ops are what the assembler writes at the
      end of the document. */
  function Normalized(c: Changeset, t: Tally): string
    requires SmartWF(t.smart)
  {
    var bank := Pad(Substring(c.charBank, 0, t.numInserted), t.numInserted);
    Pack(c.oldLen, t.calcNewLen + (c.oldLen - t.oldPos), SmartText(SmartEnd(t.smart)), bank)
  }

  lemma {:induction false} InBoundsSnoc(oldLen: int, newLen: int, ops: seq<Op>, o: Op)
    ensures InBounds(oldLen, newLen, ops + [o]) <==>
              InBounds(oldLen, newLen, ops)
              && (o.opcode == Delete ==> Total(ops + [o], {Keep, Delete}) <= oldLen)
              && (o.opcode == Insert ==> Total(ops + [o], {Keep, Insert}) <= newLen)
  {
    hide Total;
    var s := ops + [o];
    assert s[..|ops| + 1] == s && s[|ops|] == o;
    forall i | 0 <= i < |ops| ensures s[..i + 1] == ops[..i + 1] && s[i] == ops[i] { }
  }

  /** The loop over decoded ops runs to the end exactly when every bound
      holds, and then its variables are the totals of the ops. */
  lemma {:induction false} CheckFold(oldLen: int, newLen: int, ops: seq<Op>)
    requires AllParsed(ops)
    ensures var r := Fold(Step(oldLen, newLen), TallyInit, ops);
            (r.Ok? <==> InBounds(oldLen, newLen, ops))
            && (r.Ok? ==> r.value == Totals(ops) && SmartWF(r.value.smart))
  {
    if ops == [] {
      assert SmartWF(SmartInit);
      assert Totals(ops) == TallyInit;
    } else {
      var front := ops[..|ops| - 1];
      var o := ops[|ops| - 1];
      assert ops == front + [o];
      assert AllParsed(front) && Parsed(o);
      assert forall t :: Step(oldLen, newLen)(t, o) == CheckStep(oldLen, newLen, t, o);
      hide *;
      CheckFold(oldLen, newLen, front);
      FoldSnoc(Step(oldLen, newLen), TallyInit, front, o);
      InBoundsSnoc(oldLen, newLen, front, o);
      TotalsSnoc(oldLen, newLen, front, o);
    }
  }

  /** The loop's variables after `ops`: the characters kept or deleted,
      kept or inserted, and inserted, and the assembler fed all of them. */
  function Totals(ops: seq<Op>): Tally {
    Tally(Total(ops, {Keep, Delete}), Total(ops, {Keep, Insert}), Total(ops, {Insert}), SmartFrom(SmartInit, ops))
  }

  /** One more decoded op: the step fails exactly when the op breaks its
      bound, and otherwise counts it into the totals. */
  lemma {:induction false} TotalsSnoc(oldLen: int, newLen: int, ops: seq<Op>, o: Op)
    requires Parsed(o)
    ensures var r := CheckStep(oldLen, newLen, Totals(ops), o);
            && (r.Ok? <==> (o.opcode == Delete ==> Total(ops + [o], {Keep, Delete}) <= oldLen)
                           && (o.opcode == Insert ==> Total(ops + [o], {Keep, Insert}) <= newLen))
            && (r.Ok? ==> r.value == Totals(ops + [o]) && (SmartWF(Totals(ops).smart) ==> SmartWF(r.value.smart)))
  {
    TotalSnoc(ops, o, {Keep, Delete});
    TotalSnoc(ops, o, {Keep, Insert});
    TotalSnoc(ops, o, {Insert});
    assert (ops + [o])[..|ops|] == ops;
  }

  lemma {:induction false} TotalDifference(ops: seq<Op>)
    requires NoNulls(ops)
    ensures Total(ops, {Keep, Insert}) - Total(ops, {Keep, Delete}) == Total(ops, {Insert}) - Total(ops, {Delete})
  {
    if ops != [] {
      assert NoNulls(ops[..|ops| - 1]);
      TotalDifference(ops[..|ops| - 1]);
    }
  }

  /** The char bank `checkRep` packs has exactly `n` characters. */
  lemma {:induction false} PadLength(bank: string, n: nat)
    ensures |Pad(Substring(bank, 0, n), n)| == n
  {
    assert |Substring(bank, 0, n)| <= n;
  }

  /** One more op in the loop: the step is taken from the state reached. */
  lemma {:induction false} FoldCheckSnoc(oldLen: int, newLen: int, done: seq<Op>, o: Op, t: Tally)
    requires Fold(Step(oldLen, newLen), TallyInit, done) == Ok(t)
    ensures Fold(Step(oldLen, newLen), TallyInit, done + [o]) == CheckStep(oldLen, newLen, t, o)
  {
    FoldSnoc(Step(oldLen, newLen), TallyInit, done, o);
  }

  /** A step passes when its bound holds, and then it counts the op. */
  lemma {:induction false} CheckStepPasses(oldLen: int, newLen: int, t: Tally, o: Op, u: Tally)
    requires u.smart == SmartAppend(t.smart, o)
    requires u.oldPos == t.oldPos + (if o.opcode in {Keep, Delete} then o.chars else 0)
    requires u.calcNewLen == t.calcNewLen + (if o.opcode in {Keep, Insert} then o.chars else 0)
    requires u.numInserted == t.numInserted + (if o.opcode == Insert then o.chars else 0)
    requires o.opcode == Delete ==> u.oldPos <= oldLen
    requires o.opcode == Insert ==> u.calcNewLen <= newLen
    ensures CheckStep(oldLen, newLen, t, o) == Ok(u)
  {
  }

  /** A delete past the old length or an insert past the new one throws. */
  lemma {:induction false} CheckStepFails(oldLen: int, newLen: int, t: Tally, o: Op)
    requires (o.opcode == Delete && t.oldPos + o.chars > oldLen) || (o.opcode == Insert && t.calcNewLen + o.chars > newLen)
    ensures CheckStep(oldLen, newLen, t, o) == Err(InvalidChangeset)
  {
  }

  /** What a passing `checkRep` guarantees: the ops decode without error,
      every bound holds, the char bank holds exactly the inserted
      characters and the new length is the old one plus the inserted less
      the deleted characters. */
  lemma {:induction false} CheckRepSound(cs: string)
    requires CheckRepSpec(cs).Ok?
    ensures Unpack(cs).Ok?
    ensures var c := Unpack(cs).value;
            var st := ParseOps(c.ops);
            !st.fault && InBounds(c.oldLen, c.newLen, st.ops)
            && |c.charBank| == Total(st.ops, {Insert})
            && c.newLen == c.oldLen + Total(st.ops, {Insert}) - Total(st.ops, {Delete})
  {
    CheckRepPasses(cs);
    var c := Unpack(cs).value;
    var st := ParseOps(c.ops);
    CheckFold(c.oldLen, c.newLen, st.ops);
    NormalizedSound(cs, c, st.ops);
  }

  /** A passing `checkRep` ran its loop to the end and re-packed `cs`. */
  lemma {:induction false} CheckRepPasses(cs: string)
    requires CheckRepSpec(cs).Ok?
    ensures Unpack(cs).Ok?
    ensures var c := Unpack(cs).value;
            var st := ParseOps(c.ops);
            var r := Fold(Step(c.oldLen, c.newLen), TallyInit, st.ops);
            !st.fault && r.Ok? && SmartWF(r.value.smart) && Normalized(c, r.value) == cs
  {
    var c := Unpack(cs).value;
    var st := ParseOps(c.ops);
    hide ScanOp, ParseOpsFrom, ScanHeader, Unpack, Normalized, InBounds, Total;
    CheckFold(c.oldLen, c.newLen, st.ops);
    assert ForOf(Step(c.oldLen, c.newLen), TallyInit, st).Ok?;
    assert !st.fault && Visible(st) == st.ops;
  }

  /** What re-packing to the same string tells about the unpacked parts. */
  lemma {:induction false} NormalizedSound(cs: string, c: Changeset, ops: seq<Op>)
    requires Unpack(cs) == Ok(c) && AllParsed(ops)
    requires Fold(Step(c.oldLen, c.newLen), TallyInit, ops).Ok?
    requires var t := Fold(Step(c.oldLen, c.newLen), TallyInit, ops).value;
             SmartWF(t.smart) && Normalized(c, t) == cs
    ensures |c.charBank| == Total(ops, {Insert})
    ensures c.newLen == c.oldLen + Total(ops, {Insert}) - Total(ops, {Delete})
  {
    hide ScanOp, ParseOpsFrom, ScanHeader, Unpack, Pack, InBounds, Total, Fold, Pad, Substring, OpsToString, SmartFlushed, SmartEnd, SmartAppend, SmartFrom, CheckStep, Step;
    CheckFold(c.oldLen, c.newLen, ops);
    var t := Fold(Step(c.oldLen, c.newLen), TallyInit, ops).value;
    var bank := Pad(Substring(c.charBank, 0, t.numInserted), t.numInserted);
    var end := SmartFlushed(SmartEnd(t.smart));
    var newLen := t.calcNewLen + (c.oldLen - t.oldPos);
    assert cs == Pack(c.oldLen, newLen, OpsToString(end.emitted), bank);
    UnpackPackOps(c.oldLen, newLen, end.emitted, bank);
    assert c == Changeset(c.oldLen, newLen, OpsToString(end.emitted), bank);
    TotalNonNegative(ops, {Insert});
    PadLength(c.charBank, t.numInserted);
    AllParsedNoNulls(ops);
    TotalDifference(ops);
  }

  /** `checkRep(identity(N))` passes for every N. */
  lemma {:induction false} CheckRepIdentity(n: nat)
    ensures CheckRepSpec(Identity(n)) == Ok(Identity(n))
  {
    hide *;
    IdentityIsIdentity(n);
    CheckRepSpecCases(Identity(n));
    NoOpsPass(n);
    IdentityNormalized(n);
  }

  lemma {:induction false} NoOpsPass(n: nat)
    ensures ForOf(Step(n, n), TallyInit, ParseOps("")) == Ok(TallyInit)
  {
    assert ParseOps("") == Stream([], false);
    hide ScanOp, ParseOpsFrom;
  }

  lemma {:induction false} IdentityNormalized(n: nat)
    ensures Normalized(Changeset(n, n, "", ""), TallyInit) == Identity(n)
  {
    assert SmartText(SmartEnd(SmartInit)) == "";
  }

  /** `checkRep` throws what unpacking or the loop throws, and otherwise
      compares the re-packed changeset. */
  lemma {:induction false} CheckRepSpecCases(cs: string)
    ensures Unpack(cs).Err? ==> CheckRepSpec(cs) == Err(NotAChangeset)
    ensures Unpack(cs).Ok? ==>
              var c := Unpack(cs).value;
              var r := ForOf(Step(c.oldLen, c.newLen), TallyInit, ParseOps(c.ops));
              (r.Err? ==> CheckRepSpec(cs) == Err(r.error))
              && (r.Ok? ==> SmartWF(r.value.smart)
                            && CheckRepSpec(cs) == if Normalized(c, r.value) == cs then Ok(cs) else Err(InvalidChangeset))
  {
    if Unpack(cs).Ok? {
      var c := Unpack(cs).value;
      var st := ParseOps(c.ops);
      CheckFold(c.oldLen, c.newLen, st.ops);
    }
  }

  /** The changeset the method packs is the one `Normalized` describes. */
  lemma {:induction false} NormalizedIs(c: Changeset, t: Tally, newLen: int, text: string, bank: string)
    requires SmartWF(t.smart)
    requires newLen == t.calcNewLen + (c.oldLen - t.oldPos) && text == SmartText(SmartEnd(t.smart))
    requires bank == Pad(Substring(c.charBank, 0, t.numInserted), t.numInserted)
    ensures Pack(c.oldLen, newLen, text, bank) == Normalized(c, t)
  {
  }

  /** One turn of `checkRep`'s loop: counts the op, throws when it breaks
      its bound and otherwise hands it to the assembler. */
  method CheckOp(assem: SmartOpAssembler, oldLen: int, newLen: int,
                 oldPos: int, calcNewLen: int, numInserted: int, o: Op)
    returns (r: Result<(int, int, int)>)
    requires assem.Valid()
    modifies assem, assem.Repr
    ensures assem.Valid()
    ensures var want := CheckStep(oldLen, newLen, Tally(oldPos, calcNewLen, numInserted, old(assem.State())), o);
            if r.Ok? then want == Ok(Tally(r.value.0, r.value.1, r.value.2, assem.State())) else want == Err(r.error)
  {
    ghost var t0 := Tally(oldPos, calcNewLen, numInserted, assem.State());
    var oldPos', calcNewLen', numInserted' := oldPos, calcNewLen, numInserted;
    if o.opcode == Keep {
      oldPos' := oldPos + o.chars;
      calcNewLen' := calcNewLen + o.chars;
    } else if o.opcode == Delete {
      oldPos' := oldPos + o.chars;
      if oldPos' > oldLen {
        CheckStepFails(oldLen, newLen, t0, o);
        return Err(InvalidChangeset);
      }
    } else if o.opcode == Insert {
      calcNewLen' := calcNewLen + o.chars;
      numInserted' := numInserted + o.chars;
      if calcNewLen' > newLen {
        CheckStepFails(oldLen, newLen, t0, o);
        return Err(InvalidChangeset);
      }
    }
    assem.Append(o);
    CheckStepPasses(oldLen, newLen, t0, o, Tally(oldPos', calcNewLen', numInserted', assem.State()));
    return Ok((oldPos', calcNewLen', numInserted'));
  }

  /** The char bank cut to the inserted characters, then padded with `?`
      up to their number. */
  method PadBank(bank: string, n: int) returns (r: string)
    ensures r == Pad(Substring(bank, 0, n), n)
  {
    r := Substring(bank, 0, n);
    while |r| < n
      invariant Pad(r, n) == Pad(Substring(bank, 0, n), n)
      decreases n - |r|
    {
      r := r + "?";
    }
  }

  /** The loop of `checkRep`: counts the ops, throws at the first that
      breaks its bound and hands the others to the assembler. */
  method CheckOps(assem: SmartOpAssembler, ops: string, oldLen: int, newLen: int)
    returns (r: Result<(int, int, int)>)
    requires assem.Valid() && assem.State() == SmartInit
    modifies assem, assem.Repr
    ensures assem.Valid()
    ensures var want := ForOf(Step(oldLen, newLen), TallyInit, ParseOps(ops));
            if r.Ok? then want == Ok(Tally(r.value.0, r.value.1, r.value.2, assem.State())) else want == Err(r.error)
  {
    ghost var st := ParseOps(ops);
    ghost var step := Step(oldLen, newLen);
    assert Fold(step, TallyInit, []) == Ok(TallyInit);
    assert AllParsed(st.ops) && (OpenStream(st).Fail? ==> Visible(st) == []);
    hide *;

    var oldPos, calcNewLen, numInserted := 0, 0, 0;
    var start := OpIter.Open(ops);
    if start.Err? {
      ForOfEnd(step, TallyInit, st, []);
      return Err(start.error);
    }
    var it := start.value;
    ghost var done: seq<Op> := [];
    while it.HasNext()
      invariant it.Valid() && it.opsStr == ops && assem.Valid() && it !in assem.Repr
      invariant done + it.rest.ops == st.ops && it.rest.fault == st.fault
      invariant Fold(step, TallyInit, done) == Ok(Tally(oldPos, calcNewLen, numInserted, assem.State()))
      decreases |it.rest.ops|
    {
      ghost var before := it.rest;
      var next := it.Next();
      if next.Err? {
        ForOfThrows(step, TallyInit, st, done, before);
        return Err(next.error);
      }
      var o := next.value;
      assert before.ops == [o] + it.rest.ops;
      AppendAssoc(done, [o], it.rest.ops);
      ghost var t0 := Tally(oldPos, calcNewLen, numInserted, assem.State());
      FoldCheckSnoc(oldLen, newLen, done, o, t0);
      var counted := CheckOp(assem, oldLen, newLen, oldPos, calcNewLen, numInserted, o);
      if counted.Err? {
        ForOfStep(step, TallyInit, st, done, o, it.rest.ops);
        return Err(counted.error);
      }
      oldPos, calcNewLen, numInserted := counted.value.0, counted.value.1, counted.value.2;
      done := done + [o];
    }
    assert done == st.ops && !st.fault;
    ForOfEnd(step, TallyInit, st, done);
    return Ok((oldPos, calcNewLen, numInserted));
  }

  /** `checkRep(cs)`. */
  method CheckRep(cs: string) returns (r: Result<string>)
    ensures r == CheckRepSpec(cs)
  {
    CheckRepSpecCases(cs);
    var u := Unpack(cs);
    if u.Err? {
      return Err(u.error);
    }
    var c := u.value;
    var oldLen, newLen := c.oldLen, c.newLen;
    var assem := new SmartOpAssembler();
    var counts := CheckOps(assem, c.ops, oldLen, newLen);
    if counts.Err? {
      return Err(counts.error);
    }
    var oldPos, calcNewLen, numInserted := counts.value.0, counts.value.1, counts.value.2;
    ghost var t := Tally(oldPos, calcNewLen, numInserted, assem.State());
    assert SmartWF(t.smart);
    hide *;

    calcNewLen := calcNewLen + (oldLen - oldPos);
    var charBank := PadBank(c.charBank, numInserted);
    assem.EndDocument();
    var text := assem.ToString();
    assert text == SmartText(SmartEnd(t.smart));
    var normalized := Pack(oldLen, calcNewLen, text, charBank);
    NormalizedIs(c, t, calcNewLen, text, charBank);
    if normalized != cs {
      return Err(InvalidChangeset);
    }
    return Ok(cs);
  }
}
