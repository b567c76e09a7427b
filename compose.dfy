/** `slicerZipperFunc` (Changeset.js lines 1194-1245) and the two zips
    built on it: `applyToAttribution` (1255-1258) and `compose`
    (1396-1425). */
module Composition {
  import opened Results
  import opened Ops
  import opened Pools
  import opened Attributes
  import opened Codec
  import opened Cursors
  import opened Zips
  import opened CheckReps

  /** The line counts of two ops are ordered as their character counts
      are. */
  predicate LinesOrdered(a: Op, b: Op) {
    if a.chars < b.chars then a.lines <= b.lines
    else if a.chars > b.chars then a.lines >= b.lines
    else a.lines == b.lines
  }

  /** The op the table writes for an insert or keep of the first changeset
      against a delete or keep of the second. */
  function Meet(a: OpCode, b: OpCode): OpCode {
    if a == Insert then (if b == Delete then Null else Insert) else b
  }

  /** `slicerZipperFunc(attOp, csOp, pool)`: an op facing a null op, a
      delete of the first changeset and an insert of the second pass
      through whole; otherwise the shorter op is used up, the longer one
      loses as many characters and lines, and the table says what the
      consumed stretch becomes.  JavaScript's sort is stable, so on equal
      lengths `attOp` counts as the shorter one. */
  function Slice(attOp: Op, csOp: Op, p: Pool): (r: Result<Zipped<Pool>>)
    ensures r.Err? ==> r.error in {TooManyNewlines, LineCountMismatch, UnknownAttribute}
  {
    if attOp.opcode == Null then Ok(Zipped(p, attOp, csOp.(opcode := Null), csOp))
    else if csOp.opcode == Null then Ok(Zipped(p, attOp.(opcode := Null), csOp, attOp))
    else if attOp.opcode == Delete then Ok(Zipped(p, attOp.(opcode := Null), csOp, attOp))
    else if csOp.opcode == Insert then Ok(Zipped(p, attOp, csOp.(opcode := Null), csOp))
    else if attOp.chars < attOp.lines || csOp.chars < csOp.lines then Err(TooManyNewlines)
    else if !LinesOrdered(attOp, csOp) then Err(LineCountMismatch)
    else
      var opcode := Meet(attOp.opcode, csOp.opcode);
      var attribs :- if csOp.opcode == Delete then Ok((csOp.attribs, p))
                     else ComposeAttributes(attOp.attribs, csOp.attribs, attOp.opcode == Keep, p);
      if attOp.chars <= csOp.chars then
        var rest := csOp.(chars := csOp.chars - attOp.chars, lines := csOp.lines - attOp.lines);
        Ok(Zipped(attribs.1, attOp.(opcode := Null), if rest.chars == 0 then rest.(opcode := Null) else rest,
                  Op(opcode, attOp.chars, attOp.lines, attribs.0)))
      else
        var rest := attOp.(chars := attOp.chars - csOp.chars, lines := attOp.lines - csOp.lines);
        Ok(Zipped(attribs.1, if rest.chars == 0 then rest.(opcode := Null) else rest, csOp.(opcode := Null),
                  Op(opcode, csOp.chars, csOp.lines, attribs.0)))
  }

  function SliceFn(): ZipFn<Pool> {
    (p, a, b) => Slice(a, b, p)
  }

  /** The cases that pass an op through: it is written as it is and used
      up, and the other op is left alone. */
  lemma {:induction false} SlicePassThrough(attOp: Op, csOp: Op, p: Pool)
    ensures attOp.opcode == Null ==>
              var z := Slice(attOp, csOp, p).value;
              z.out == csOp && z.op2.opcode == Null && z.op1 == attOp && z.state == p
    ensures attOp.opcode != Null && (csOp.opcode == Null || attOp.opcode == Delete) ==>
              var z := Slice(attOp, csOp, p).value;
              z.out == attOp && z.op1.opcode == Null && z.op2 == csOp && z.state == p
    ensures attOp.opcode in {Insert, Keep} && csOp.opcode == Insert ==>
              var z := Slice(attOp, csOp, p).value;
              z.out == csOp && z.op2.opcode == Null && z.op1 == attOp && z.state == p
  {
  }

  /** The checks of the general case, in the source's order: no op may
      have more lines than characters, and the line counts must be ordered
      like the character counts; past them only an unknown attribute
      number can fail. */
  lemma {:induction false} SliceChecks(attOp: Op, csOp: Op, p: Pool)
    requires attOp.opcode in {Insert, Keep} && csOp.opcode in {Delete, Keep}
    ensures (attOp.chars < attOp.lines || csOp.chars < csOp.lines)
            <==> Slice(attOp, csOp, p) == Err(TooManyNewlines)
    ensures attOp.chars >= attOp.lines && csOp.chars >= csOp.lines && !LinesOrdered(attOp, csOp)
            <==> Slice(attOp, csOp, p) == Err(LineCountMismatch)
    ensures Slice(attOp, csOp, p) == Err(UnknownAttribute) ==>
              csOp.opcode == Keep && ComposeAttributes(attOp.attribs, csOp.attribs, attOp.opcode == Keep, p).Err?
  {
  }

  /** The table: insert against delete writes nothing, insert against keep
      an insert, keep against delete a delete and keep against keep a keep.
      The written op spans the shorter op; a delete keeps its own
      attributes and a keep or insert gets the composed ones. */
  lemma {:induction false} SliceTable(attOp: Op, csOp: Op, p: Pool)
    requires attOp.opcode in {Insert, Keep} && csOp.opcode in {Delete, Keep}
    requires Slice(attOp, csOp, p).Ok?
    ensures var out := Slice(attOp, csOp, p).value.out;
            && (attOp.opcode == Insert && csOp.opcode == Delete ==> out.opcode == Null)
            && (attOp.opcode == Insert && csOp.opcode == Keep ==> out.opcode == Insert)
            && (attOp.opcode == Keep && csOp.opcode == Delete ==> out.opcode == Delete)
            && (attOp.opcode == Keep && csOp.opcode == Keep ==> out.opcode == Keep)
    ensures var out := Slice(attOp, csOp, p).value.out;
            out.chars == (if attOp.chars <= csOp.chars then attOp.chars else csOp.chars)
            && out.lines == (if attOp.chars <= csOp.chars then attOp.lines else csOp.lines)
    ensures var z := Slice(attOp, csOp, p).value;
            if csOp.opcode == Delete then z.out.attribs == csOp.attribs && z.state == p
            else ComposeAttributes(attOp.attribs, csOp.attribs, attOp.opcode == Keep, p) == Ok((z.out.attribs, z.state))
  {
  }

  /** How the general case consumes: the shorter op is used up, the longer
      one keeps its opcode and attributes and loses what was written, and
      it is used up too when no characters are left. */
  lemma {:induction false} SliceConsumes(attOp: Op, csOp: Op, p: Pool)
    requires attOp.opcode in {Insert, Keep} && csOp.opcode in {Delete, Keep}
    requires Slice(attOp, csOp, p).Ok?
    ensures var z := Slice(attOp, csOp, p).value;
            if attOp.chars <= csOp.chars then
              && z.op1.opcode == Null
              && z.op2.chars == csOp.chars - z.out.chars && z.op2.lines == csOp.lines - z.out.lines
              && z.op2.attribs == csOp.attribs
              && (z.op2.opcode == Null <==> attOp.chars == csOp.chars)
              && (z.op2.opcode != Null ==> z.op2.opcode == csOp.opcode)
            else
              && z.op2.opcode == Null
              && z.op1.chars == attOp.chars - z.out.chars && z.op1.lines == attOp.lines - z.out.lines
              && z.op1.attribs == attOp.attribs && z.op1.opcode == attOp.opcode
  {
  }

  /** Each call uses up an op, so `applyZip` ends with this callback. */
  lemma {:induction false} SliceProgress(attOp: Op, csOp: Op, p: Pool)
    requires Live(attOp) + Live(csOp) > 0 && Slice(attOp, csOp, p).Ok?
    ensures var z := Slice(attOp, csOp, p).value;
            Live(z.op1) + Live(z.op2) < Live(attOp) + Live(csOp)
  {
  }

  lemma {:induction false} SliceFnProgresses()
    ensures Progresses(SliceFn())
  {
    forall p: Pool, a: Op, b: Op | Live(a) + Live(b) > 0 && SliceFn()(p, a, b).Ok?
      ensures Live(SliceFn()(p, a, b).value.op1) + Live(SliceFn()(p, a, b).value.op2) < Live(a) + Live(b)
    {
      SliceProgress(a, b, p);
    }
  }

  // ------------------------------------------------------------ applyToAttribution

  /** `applyToAttribution(cs, astr, pool)`: the attribution string zipped
      with the changeset's ops; also returns the pool, which composing
      attributes may have grown. */
  function ApplyToAttributionSpec(cs: string, astr: string, p: Pool): (r: Result<(string, Pool)>)
    ensures Unpack(cs).Err? ==> r == Err(NotAChangeset)
  {
    var c :- Unpack(cs);
    SliceFnProgresses();
    var z :- ApplyZipSpec(SliceFn(), p, astr, c.ops);
    Ok((z.1, z.0))
  }

  method ApplyToAttribution(cs: string, astr: string, p: Pool) returns (r: Result<(string, Pool)>)
    ensures r == ApplyToAttributionSpec(cs, astr, p)
  {
    var c := Unpack(cs);
    if c.Err? {
      return Err(c.error);
    }
    SliceFnProgresses();
    var z := ApplyZip(SliceFn(), p, astr, c.value.ops);
    if z.Err? {
      return Err(z.error);
    }
    return Ok((z.value.1, z.value.0));
  }

  /** Against nothing from the changeset, the attribution's ops go
      through whole, one at a time, until its stream ends. */
  lemma {:induction false} AttributionAlone(p: Pool, op1: Op, op2: Op, st1: Stream)
    requires AllParsed(st1.ops) && op2.opcode == Null
    requires op1.opcode == Null || Parsed(op1)
    ensures (SliceFnProgresses(); var r := ZipFrom(SliceFn(), p, op1, op2, st1, Stream([], false));
            && (!st1.fault ==> r == Ok((p, Emit(op1) + st1.ops)))
            && (st1.fault && st1.ops != [] ==> r == Err(ErrorOpcode)))
    decreases |st1.ops| + Live(op1)
  {
    SliceFnProgresses();
    var none := Stream([], false);
    ZipFromCases(SliceFn(), p, op1, op2, st1, none);
    assert Fetch(op2, none) == Ok((op2, none));
    hide ZipFrom;
    if op1.opcode == Null && st1.ops == [] {
      assert Emit(op1) + st1.ops == [];
    } else {
      if st1.fault && op1.opcode == Null && |st1.ops| == 1 {
      } else {
        var x1 := Fetch(op1, st1).value;
        var z := Slice(x1.0, op2, p).value;
        assert Slice(x1.0, op2, p) == Ok(Zipped(p, x1.0.(opcode := Null), op2, x1.0));
        var r2 := ZipFrom(SliceFn(), p, z.op1, op2, x1.1, none);
        assert ZipFrom(SliceFn(), p, op1, op2, st1, none) == Prefixed(Emit(x1.0), r2);
        assert Emit(z.op1) == [] && AllParsed(x1.1.ops) && x1.1.fault == st1.fault;
        assert x1.0.opcode == Null || Parsed(x1.0);
        if op1.opcode == Null {
          assert Emit(x1.0) + x1.1.ops == st1.ops == Emit(op1) + st1.ops;
        }
        assert st1.fault && st1.ops != [] ==> x1.1.ops != [];
        hide Slice, Fetch, ZipFrom, Prefixed;
        AttributionAlone(p, z.op1, op2, x1.1);
        if !st1.fault {
          assert [] + x1.1.ops == x1.1.ops;
          PrefixedOk(Emit(x1.0), p, x1.1.ops);
        } else {
          PrefixedErr(Emit(x1.0), r2);
        }
      }
    }
  }

  /** Against nothing from the attribution, the changeset's ops go through
      whole, one at a time, until its stream ends. */
  lemma {:induction false} ChangesetAlone(p: Pool, op1: Op, op2: Op, st2: Stream)
    requires AllParsed(st2.ops) && op1.opcode == Null
    requires op2.opcode == Null || Parsed(op2)
    ensures (SliceFnProgresses(); var r := ZipFrom(SliceFn(), p, op1, op2, Stream([], false), st2);
            && (!st2.fault ==> r == Ok((p, Emit(op2) + st2.ops)))
            && (st2.fault && st2.ops != [] ==> r == Err(ErrorOpcode)))
    decreases |st2.ops| + Live(op2)
  {
    SliceFnProgresses();
    var none := Stream([], false);
    ZipFromCases(SliceFn(), p, op1, op2, none, st2);
    assert Fetch(op1, none) == Ok((op1, none));
    hide ZipFrom;
    if op2.opcode == Null && st2.ops == [] {
      assert Emit(op2) + st2.ops == [];
    } else {
      if st2.fault && op2.opcode == Null && |st2.ops| == 1 {
      } else {
        var x2 := Fetch(op2, st2).value;
        var z := Slice(op1, x2.0, p).value;
        assert Slice(op1, x2.0, p) == Ok(Zipped(p, op1, x2.0.(opcode := Null), x2.0));
        var r2 := ZipFrom(SliceFn(), p, op1, z.op2, none, x2.1);
        assert ZipFrom(SliceFn(), p, op1, op2, none, st2) == Prefixed(Emit(x2.0), r2);
        assert Emit(z.op2) == [] && AllParsed(x2.1.ops) && x2.1.fault == st2.fault;
        assert x2.0.opcode == Null || Parsed(x2.0);
        if op2.opcode == Null {
          assert Emit(x2.0) + x2.1.ops == st2.ops == Emit(op2) + st2.ops;
        }
        assert st2.fault && st2.ops != [] ==> x2.1.ops != [];
        hide Slice, Fetch, ZipFrom, Prefixed;
        ChangesetAlone(p, op1, z.op2, x2.1);
        if !st2.fault {
          assert [] + x2.1.ops == x2.1.ops;
          PrefixedOk(Emit(x2.0), p, x2.1.ops);
        } else {
          PrefixedErr(Emit(x2.0), r2);
        }
      }
    }
  }

  /** The identity changeset leaves an attribution as the assembler
      re-writes its ops, and throws on an attribution that ends in `?`. */
  lemma {:induction false} AttributionIdentity(n: nat, astr: string, p: Pool)
    ensures var st := ParseOps(astr);
            ApplyToAttributionSpec(Identity(n), astr, p)
            == if st.fault then Err(ErrorOpcode) else Ok((ZipText(st.ops), p))
  {
    IdentityIsIdentity(n);
    SliceFnProgresses();
    assert ParseOps("") == Stream([], false);
    var st := ParseOps(astr);
    AttributionAlone(p, NewOp(Null), NewOp(Null), st);
    ApplyZipSpecCases(SliceFn(), p, astr, "");
    if !st.fault {
      assert Emit(NewOp(Null)) + st.ops == st.ops;
    }
  }

  /** Applied to the empty attribution, a changeset writes its own ops
      through the assembler, and throws on ops that end in `?`. */
  lemma {:induction false} AttributionOfNothing(cs: string, p: Pool)
    requires Unpack(cs).Ok?
    ensures var st := ParseOps(Unpack(cs).value.ops);
            ApplyToAttributionSpec(cs, "", p)
            == if st.fault then Err(ErrorOpcode) else Ok((ZipText(st.ops), p))
  {
    var c := Unpack(cs).value;
    SliceFnProgresses();
    assert ParseOps("") == Stream([], false);
    var st := ParseOps(c.ops);
    ChangesetAlone(p, NewOp(Null), NewOp(Null), st);
    ApplyZipSpecCases(SliceFn(), p, "", c.ops);
    assert Emit(NewOp(Null)) + st.ops == st.ops;
  }

  /** An attribution: every op is an insert. */
  predicate AllInserts(ops: seq<Op>) {
    forall i :: 0 <= i < |ops| ==> ops[i].opcode == Insert
  }

  /** Fetching the next op moves it from the stream to the op in hand. */
  lemma {:induction false} FetchTotal(op: Op, st: Stream, kinds: set<OpCode>)
    requires AllParsed(st.ops) && Fetch(op, st).Ok? && Null !in kinds
    ensures var x := Fetch(op, st).value;
            Total([x.0], kinds) + Total(x.1.ops, kinds) == Total([op], kinds) + Total(st.ops, kinds)
  {
    var x := Fetch(op, st).value;
    if op.opcode == Null && st.ops != [] {
      TotalAppend([x.0], x.1.ops, kinds);
      TotalOne(op, kinds);
    }
  }

  /** The next op of an attribution is an insert, or nothing once it has
      run out. */
  lemma {:induction false} FetchAttribution(op: Op, st: Stream)
    requires AllParsed(st.ops) && AllInserts(st.ops) && op.opcode in {Null, Insert} && op.chars >= 0
    requires Fetch(op, st).Ok?
    ensures var x := Fetch(op, st).value;
            && x.0.opcode in {Null, Insert} && x.0.chars >= 0 && AllInserts(x.1.ops)
            && (x.0.opcode == Null ==> x.1.ops == [])
            && Total([x.0], {Insert}) + Total(x.1.ops, {Insert}) == Total([op], {Insert}) + Total(st.ops, {Insert})
  {
    var x := Fetch(op, st).value;
    if op.opcode == Null && st.ops != [] {
      assert x.0 == st.ops[0];
      forall i | 0 <= i < |x.1.ops| ensures x.1.ops[i].opcode == Insert {
        assert x.1.ops[i] == st.ops[i + 1];
      }
    }
    FetchTotal(op, st, {Insert});
  }

  /** The next op of a changeset, or nothing once it has run out. */
  lemma {:induction false} FetchChangeset(op: Op, st: Stream)
    requires AllParsed(st.ops) && (op.opcode == Null || Parsed(op)) && Fetch(op, st).Ok?
    ensures var x := Fetch(op, st).value;
            && (x.0.opcode == Null || Parsed(x.0))
            && (x.0.opcode == Null ==> x.1.ops == [])
            && Total([x.0], {Insert}) + Total(x.1.ops, {Insert}) == Total([op], {Insert}) + Total(st.ops, {Insert})
            && Total([x.0], {Delete}) + Total(x.1.ops, {Delete}) == Total([op], {Delete}) + Total(st.ops, {Delete})
            && Total([x.0], {Keep, Delete}) + Total(x.1.ops, {Keep, Delete})
               == Total([op], {Keep, Delete}) + Total(st.ops, {Keep, Delete})
  {
    var x := Fetch(op, st).value;
    if op.opcode == Null && st.ops != [] {
      assert x.0 == st.ops[0];
    }
    FetchTotal(op, st, {Insert});
    FetchTotal(op, st, {Delete});
    FetchTotal(op, st, {Keep, Delete});
  }

  /** One call of `slicerZipperFunc` on an attribution op: what it writes
      as inserts is the attribution characters it used up, less those the
      changeset deletes, plus those it inserts; it writes keeps or deletes
      only when the attribution has run out. */
  lemma {:induction false} SliceTotals(a: Op, b: Op, p: Pool)
    requires a.opcode in {Null, Insert} && a.chars >= 0 && (b.opcode == Null || Parsed(b))
    requires Slice(a, b, p).Ok?
    ensures var z := Slice(a, b, p).value;
            && z.op1.opcode in {Null, Insert} && z.op1.chars >= 0
            && (z.op2.opcode == Null || Parsed(z.op2))
            && (a.opcode != Null ==>
                  Total(Emit(z.out), {Insert})
                  == (Total([a], {Insert}) - Total([z.op1], {Insert}))
                     - (Total([b], {Delete}) - Total([z.op2], {Delete}))
                     + (Total([b], {Insert}) - Total([z.op2], {Insert})))
            && (a.opcode == Null ==> Total(Emit(z.out), {Insert}) == Total([b], {Insert}))
            && Total(Emit(z.out), {Keep, Delete}) == (if a.opcode == Null then Total([b], {Keep, Delete}) else 0)
            && (a.opcode != Null && b.opcode != Null ==>
                  Total([b], {Keep, Delete}) - Total([z.op2], {Keep, Delete}) == Total([a], {Insert}) - Total([z.op1], {Insert}))
            && (a.opcode == Null ==> z.op1 == a && z.op2.opcode == Null)
            && (b.opcode == Null ==> z.op2 == b)
  {
    var z := Slice(a, b, p).value;
    TotalOne(a, {Insert});
    TotalOne(z.op1, {Insert});
    TotalOne(b, {Insert});
    TotalOne(z.op2, {Insert});
    TotalOne(b, {Delete});
    TotalOne(z.op2, {Delete});
    TotalOne(b, {Keep, Delete});
    TotalOne(z.op2, {Keep, Delete});
    if z.out.opcode != Null {
      TotalOne(z.out, {Insert});
      TotalOne(z.out, {Keep, Delete});
    }
    if a.opcode != Null && b.opcode in {Keep, Delete} {
      SliceTable(a, b, p);
      SliceConsumes(a, b, p);
    }
  }

  /** Over the rest of the zip of an attribution with a changeset whose
      keeps and deletes do not run past it, the ops written are inserts
      holding the attribution's characters less the deleted ones plus the
      inserted ones. */
  lemma {:induction false} AttributionTotals(p: Pool, op1: Op, op2: Op, st1: Stream, st2: Stream)
    requires AllParsed(st1.ops) && AllParsed(st2.ops) && AllInserts(st1.ops)
    requires op1.opcode in {Null, Insert} && op1.chars >= 0 && (op2.opcode == Null || Parsed(op2))
    requires Total([op2], {Keep, Delete}) + Total(st2.ops, {Keep, Delete}) <= Total([op1], {Insert}) + Total(st1.ops, {Insert})
    requires (SliceFnProgresses(); ZipFrom(SliceFn(), p, op1, op2, st1, st2).Ok?)
    ensures (SliceFnProgresses(); var out := ZipFrom(SliceFn(), p, op1, op2, st1, st2).value.1;
            && Total(out, {Insert}) == Total([op1], {Insert}) + Total(st1.ops, {Insert})
                                       - Total([op2], {Delete}) - Total(st2.ops, {Delete})
                                       + Total([op2], {Insert}) + Total(st2.ops, {Insert})
            && Total(out, {Keep, Delete}) == 0)
    decreases 2 * |st1.ops| + 2 * |st2.ops| + Live(op1) + Live(op2)
  {
    hide Slice, Fetch, ZipFrom, Total, AllInserts;
    SliceFnProgresses();
    ZipFromCases(SliceFn(), p, op1, op2, st1, st2);
    var I, D, KD := {Insert}, {Delete}, {Keep, Delete};
    TotalEmpty(I);
    TotalEmpty(D);
    TotalEmpty(KD);
    TotalOne(op1, I);
    TotalOne(op2, I);
    TotalOne(op2, D);
    TotalOne(op2, KD);
    if op1.opcode == Null && st1.ops == [] && op2.opcode == Null && st2.ops == [] {
      assert ZipFrom(SliceFn(), p, op1, op2, st1, st2).value.1 == [];
    } else {
      var x1 := Fetch(op1, st1).value;
      var x2 := Fetch(op2, st2).value;
      var z := Slice(x1.0, x2.0, p).value;
      var r := ZipFrom(SliceFn(), z.state, z.op1, z.op2, x1.1, x2.1);
      assert ZipFrom(SliceFn(), p, op1, op2, st1, st2) == Prefixed(Emit(z.out), r);
      FetchAttribution(op1, st1);
      FetchChangeset(op2, st2);
      TotalNonNegative(x1.1.ops, I);
      TotalNonNegative(x2.1.ops, KD);
      TotalOne(x1.0, I);
      TotalOne(z.op1, I);
      TotalOne(x2.0, KD);
      TotalOne(x2.0, D);
      TotalOne(z.op2, KD);
      TotalOne(z.op2, D);
      TotalOne(z.op2, I);
      SliceTotals(x1.0, x2.0, p);
      AttributionTotals(z.state, z.op1, z.op2, x1.1, x2.1);
      TotalAppend(Emit(z.out), r.value.1, I);
      TotalAppend(Emit(z.out), r.value.1, KD);
    }
  }

  /** `applyToAttribution` on an attribution (all inserts) that the
      changeset's keeps and deletes do not run past: the ops it writes are
      inserts covering the attribution's characters less the deleted ones
      plus the inserted ones, which is the new length when the attribution
      covers the old length and `checkRep` accepts the changeset. */
  lemma {:induction false} ApplyToAttributionTotals(cs: string, astr: string, p: Pool)
    requires Unpack(cs).Ok? && ApplyToAttributionSpec(cs, astr, p).Ok?
    requires AllInserts(ParseOps(astr).ops)
    requires Total(ParseOps(Unpack(cs).value.ops).ops, {Keep, Delete}) <= Total(ParseOps(astr).ops, {Insert})
    ensures (SliceFnProgresses();
            var c := Unpack(cs).value;
            var ops := ParseOps(c.ops).ops;
            var z := ZipFrom(SliceFn(), p, NewOp(Null), NewOp(Null), ParseOps(astr), ParseOps(c.ops));
            && z.Ok? && ApplyToAttributionSpec(cs, astr, p).value == (ZipText(z.value.1), z.value.0)
            && Total(z.value.1, {Insert}) == Total(ParseOps(astr).ops, {Insert}) - Total(ops, {Delete}) + Total(ops, {Insert})
            && Total(z.value.1, {Keep, Delete}) == 0
            && (CheckRepSpec(cs).Ok? && Total(ParseOps(astr).ops, {Insert}) == c.oldLen ==>
                  Total(z.value.1, {Insert}) == c.newLen))
  {
    SliceFnProgresses();
    var c := Unpack(cs).value;
    var none := NewOp(Null);
    ApplyZipSpecRun(SliceFn(), p, astr, c.ops);
    TotalOne(none, {Insert});
    TotalOne(none, {Delete});
    TotalOne(none, {Keep, Delete});
    AttributionTotals(p, none, none, ParseOps(astr), ParseOps(c.ops));
    if CheckRepSpec(cs).Ok? {
      CheckRepSound(cs);
    }
  }

  // ------------------------------------------------------------ compose

  /** The closure state of `compose`: the pool, the positions of the two
      char-bank iterators and the new char bank assembled so far. */
  datatype Composing = Composing(pool: Pool, pos1: int, pos2: int, bank: string)

  /** The callback of `compose`: an insert the second changeset deletes is
      skipped in the first bank; a written insert takes its text from the
      bank of the changeset it comes from. */
  function ComposeStep(bank1: string, bank2: string, c: Composing, op1: Op, op2: Op): (r: Result<Zipped<Composing>>)
    ensures r.Ok? ==> Slice(op1, op2, c.pool).Ok?
    ensures r.Ok? ==> var z := Slice(op1, op2, c.pool).value;
                      r.value.op1 == z.op1 && r.value.op2 == z.op2 && r.value.out == z.out
                      && r.value.state.pool == z.state
  {
    var pos1 :- if op1.opcode == Insert && op2.opcode == Delete then
                  var n := Width(NewOp(Null).(chars := Min(op1.chars, op2.chars)));
                  var skipped :- PeekAt(bank1, c.pos1, n);
                  Ok(c.pos1 + n)
                else Ok(c.pos1);
    var z :- Slice(op1, op2, c.pool);
    if z.out.opcode == Insert then
      if op2.opcode == Insert then
        var piece :- PeekAt(bank2, c.pos2, Width(z.out));
        Ok(Zipped(Composing(z.state, pos1, c.pos2 + |piece|, c.bank + piece), z.op1, z.op2, z.out))
      else
        var piece :- PeekAt(bank1, pos1, Width(z.out));
        Ok(Zipped(Composing(z.state, pos1 + |piece|, c.pos2, c.bank + piece), z.op1, z.op2, z.out))
    else Ok(Zipped(Composing(z.state, pos1, c.pos2, c.bank), z.op1, z.op2, z.out))
  }

  function ComposeFn(bank1: string, bank2: string): ZipFn<Composing> {
    (c, a, b) => ComposeStep(bank1, bank2, c, a, b)
  }

  lemma {:induction false} ComposeFnProgresses(bank1: string, bank2: string)
    ensures Progresses(ComposeFn(bank1, bank2))
  {
    forall c: Composing, a: Op, b: Op | Live(a) + Live(b) > 0 && ComposeFn(bank1, bank2)(c, a, b).Ok?
      ensures Live(ComposeFn(bank1, bank2)(c, a, b).value.op1) + Live(ComposeFn(bank1, bank2)(c, a, b).value.op2)
              < Live(a) + Live(b)
    {
      SliceProgress(a, b, c.pool);
    }
  }

  /** `compose(cs1, cs2, pool)`: the two changesets must meet in length;
      the result runs from the first one's old length to the second one's
      new length. */
  function ComposeSpec(cs1: string, cs2: string, p: Pool): (r: Result<(string, Pool)>)
    ensures Unpack(cs1).Err? || Unpack(cs2).Err? ==> r == Err(NotAChangeset)
    ensures Unpack(cs1).Ok? && Unpack(cs2).Ok? && Unpack(cs1).value.newLen != Unpack(cs2).value.oldLen
            ==> r == Err(MismatchedLength)
  {
    var c1 :- Unpack(cs1);
    var c2 :- Unpack(cs2);
    if c1.newLen != c2.oldLen then Err(MismatchedLength)
    else
      ComposeFnProgresses(c1.charBank, c2.charBank);
      var z :- ApplyZipSpec(ComposeFn(c1.charBank, c2.charBank), Composing(p, 0, 0, ""), c1.ops, c2.ops);
      Ok((Pack(c1.oldLen, c2.newLen, z.1, z.0.bank), z.0.pool))
  }

  /** What `compose` returns unpacks to the first changeset's old length,
      the second one's new length, the zipped ops and the assembled bank. */
  lemma {:induction false} ComposeLengths(cs1: string, cs2: string, p: Pool)
    requires ComposeSpec(cs1, cs2, p).Ok?
    ensures var c := Unpack(ComposeSpec(cs1, cs2, p).value.0);
            c.Ok? && c.value.oldLen == Unpack(cs1).value.oldLen && c.value.newLen == Unpack(cs2).value.newLen
  {
    var c1 := Unpack(cs1).value;
    var c2 := Unpack(cs2).value;
    ComposeFnProgresses(c1.charBank, c2.charBank);
    var z := ApplyZipSpec(ComposeFn(c1.charBank, c2.charBank), Composing(p, 0, 0, ""), c1.ops, c2.ops).value;
    assert ComposeSpec(cs1, cs2, p).value.0 == Pack(c1.oldLen, c2.newLen, z.1, z.0.bank);
    ApplyZipPackable(ComposeFn(c1.charBank, c2.charBank), Composing(p, 0, 0, ""), c1.ops, c2.ops);
    UnpackPack(c1.oldLen, c2.newLen, z.1, z.0.bank);
  }

  /** `compose(cs1, cs2, pool)`. */
  method Compose(cs1: string, cs2: string, p: Pool) returns (r: Result<(string, Pool)>)
    ensures r == ComposeSpec(cs1, cs2, p)
  {
    var c1 := Unpack(cs1);
    if c1.Err? {
      return Err(c1.error);
    }
    var c2 := Unpack(cs2);
    if c2.Err? {
      return Err(c2.error);
    }
    if c1.value.newLen != c2.value.oldLen {
      return Err(MismatchedLength);
    }
    ComposeFnProgresses(c1.value.charBank, c2.value.charBank);
    var z := ApplyZip(ComposeFn(c1.value.charBank, c2.value.charBank), Composing(p, 0, 0, ""), c1.value.ops, c2.value.ops);
    if z.Err? {
      return Err(z.error);
    }
    return Ok((Pack(c1.value.oldLen, c2.value.newLen, z.value.1, z.value.0.bank), z.value.0.pool));
  }
}
