/** `follow(cs1, cs2, reverseInsertOrder, pool)` (Changeset.js lines
    2104-2243): the operational transform.  Given two changesets made
    against the same document, it rewrites `cs2` so that it applies after
    `cs1`. */
module Following {
  import opened Results
  import opened Ops
  import opened Pools
  import opened Attributes
  import opened Codec
  import opened Cursors
  import opened Zips
  import opened Base36

  /** The closure state of `follow`: the pool, the positions of the two
      char-bank iterators, and the counters `oldPos` (characters of the
      text after `cs1` consumed so far) and `newLen` (characters written). */
  datatype Follow = Follow(pool: Pool, pos1: int, pos2: int, oldPos: int, newLen: int)

  /** The pair that marks an insert that must go first. */
  const InsertFirst := Attrib("insertorder", "first")

  /** Which of two inserts at the same place goes first, 1 or 2: an insert
      marked `insertorder=first` wins over one that is not; otherwise an
      insert that does not start with a newline wins over one that does;
      otherwise `reverseInsertOrder` decides. */
  function Pick(first1: bool, first2: bool, newline1: bool, newline2: bool, reverse: bool): (which: nat) {
    if first1 && !first2 then 1
    else if first2 && !first1 then 2
    else if newline1 && !newline2 then 2
    else if !newline1 && newline2 then 1
    else if reverse then 2
    else 1
  }

  /** The tie-break in closed form: the second insert goes first exactly
      when it alone is marked, or both or neither are marked and it alone
      avoids a leading newline, or nothing else separates them and the
      order is reversed. */
  lemma {:induction false} PickCases(first1: bool, first2: bool, newline1: bool, newline2: bool, reverse: bool)
    ensures Pick(first1, first2, newline1, newline2, reverse) in {1, 2}
    ensures Pick(first1, first2, newline1, newline2, reverse) == 2 <==>
              || (first2 && !first1)
              || (first1 == first2 && newline1 && !newline2)
              || (first1 == first2 && newline1 == newline2 && reverse)
  {
  }

  /** The tie-break does not depend on which side asks: seen from the other
      changeset, with `reverseInsertOrder` flipped, the same insert goes
      first.  This is what lets two sites that follow each other's
      changesets agree on the order of concurrent inserts. */
  lemma {:induction false} PickSymmetric(first1: bool, first2: bool, newline1: bool, newline2: bool, reverse: bool)
    ensures Pick(first1, first2, newline1, newline2, reverse) == 1
            <==> Pick(first2, first1, newline2, newline1, !reverse) == 2
  {
  }

  /** The op of the first changeset used up, the other one shortened by as
      many characters and lines, and used up too when nothing is left. */
  function Shorten(op: Op, used: Op): (r: Op)
    ensures r.chars == op.chars - used.chars && r.lines == op.lines - used.lines && r.attribs == op.attribs
    ensures r.opcode == (if op.chars == used.chars then Null else op.opcode)
  {
    var rest := op.(chars := op.chars - used.chars, lines := op.lines - used.lines);
    if rest.chars == 0 then rest.(opcode := Null) else rest
  }

  /** What the callback of `follow` does to the two ops and the char-bank
      positions, before counting. */
  function Transform(hasFirst: seq<nat> -> bool, reverse: bool, bank1: string, bank2: string,
                     c: Follow, op1: Op, op2: Op): (r: Result<Zipped<Follow>>)
    ensures r.Ok? ==> r.value.state.oldPos == c.oldPos && r.value.state.newLen == c.newLen
    ensures r.Ok? && Live(op1) + Live(op2) > 0 ==> Live(r.value.op1) + Live(r.value.op2) < Live(op1) + Live(op2)
  {
    if op1.opcode == Insert || op2.opcode == Insert then
      var which :- if op2.opcode != Insert then Ok(1)
                   else if op1.opcode != Insert then Ok(2)
                   else
                     var char1 :- PeekAt(bank1, c.pos1, 1);
                     var char2 :- PeekAt(bank2, c.pos2, 1);
                     Ok(Pick(hasFirst(op1.attribs), hasFirst(op2.attribs), char1 == "\n", char2 == "\n", reverse));
      if which == 1 then
        var skipped :- PeekAt(bank1, c.pos1, Width(op1));
        Ok(Zipped(c.(pos1 := c.pos1 + Width(op1)), op1.(opcode := Null), op2, Op(Keep, op1.chars, op1.lines, [])))
      else
        var skipped :- PeekAt(bank2, c.pos2, Width(op2));
        Ok(Zipped(c.(pos2 := c.pos2 + Width(op2)), op1, op2.(opcode := Null), op2))
    else if op1.opcode == Delete then
      if op2.opcode == Null then Ok(Zipped(c, op1.(opcode := Null), op2, NewOp(Null)))
      else if op1.chars <= op2.chars then Ok(Zipped(c, op1.(opcode := Null), Shorten(op2, op1), NewOp(Null)))
      else Ok(Zipped(c, op1.(chars := op1.chars - op2.chars, lines := op1.lines - op2.lines),
                     op2.(opcode := Null), NewOp(Null)))
    else if op2.opcode == Delete then
      if op1.opcode == Null then Ok(Zipped(c, op1, op2.(opcode := Null), op2))
      else if op2.chars <= op1.chars then Ok(Zipped(c, Shorten(op1, op2), op2.(opcode := Null), op2))
      else Ok(Zipped(c, op1.(opcode := Null), op2.(chars := op2.chars - op1.chars, lines := op2.lines - op1.lines),
                     op2.(chars := op1.chars, lines := op1.lines)))
    else if op1.opcode == Null then Ok(Zipped(c, op1, op2.(opcode := Null), op2))
    else if op2.opcode == Null then Ok(Zipped(c, op1.(opcode := Null), op2, NewOp(Null)))
    else
      var att :- FollowAttributes(op1.attribs, op2.attribs, c.pool);
      if op1.chars <= op2.chars then
        Ok(Zipped(c.(pool := att.1), op1.(opcode := Null), Shorten(op2, op1), Op(Keep, op1.chars, op1.lines, att.0)))
      else
        Ok(Zipped(c.(pool := att.1), Shorten(op1, op2), op2.(opcode := Null), Op(Keep, op2.chars, op2.lines, att.0)))
  }

  /** The characters of the text after `cs1` an op consumes. */
  function OldChars(o: Op): int {
    if o.opcode == Keep || o.opcode == Delete then o.chars else 0
  }

  /** The characters of the new text an op writes. */
  function NewChars(o: Op): int {
    if o.opcode == Keep || o.opcode == Insert then o.chars else 0
  }

  /** The callback of `follow`: `Transform`, then the `switch` that counts
      the op written into `oldPos` and `newLen`. */
  function FollowStep(hasFirst: seq<nat> -> bool, reverse: bool, bank1: string, bank2: string,
                      c: Follow, op1: Op, op2: Op): (r: Result<Zipped<Follow>>)
    ensures r.Ok? ==> r.value.state.oldPos == c.oldPos + SumOf(OldChars, Emit(r.value.out))
    ensures r.Ok? ==> r.value.state.newLen == c.newLen + SumOf(NewChars, Emit(r.value.out))
    ensures r.Ok? && Live(op1) + Live(op2) > 0 ==> Live(r.value.op1) + Live(r.value.op2) < Live(op1) + Live(op2)
  {
    var z :- Transform(hasFirst, reverse, bank1, bank2, c, op1, op2);
    var s := z.state;
    assert SumOf(OldChars, Emit(z.out)) == OldChars(z.out) && SumOf(NewChars, Emit(z.out)) == NewChars(z.out) by {
      if z.out.opcode != Null {
        assert Emit(z.out)[1..] == [];
      }
    }
    Ok(z.(state := s.(oldPos := s.oldPos + OldChars(z.out), newLen := s.newLen + NewChars(z.out))))
  }

  function FollowFn(hasFirst: seq<nat> -> bool, reverse: bool, bank1: string, bank2: string): ZipFn<Follow> {
    (c, a, b) => FollowStep(hasFirst, reverse, bank1, bank2, c, a, b)
  }

  lemma {:induction false} FollowFnProgresses(hasFirst: seq<nat> -> bool, reverse: bool, bank1: string, bank2: string)
    ensures Progresses(FollowFn(hasFirst, reverse, bank1, bank2))
  {
    var f := FollowFn(hasFirst, reverse, bank1, bank2);
    forall c: Follow, a: Op, b: Op | Live(a) + Live(b) > 0 && f(c, a, b).Ok?
      ensures Live(f(c, a, b).value.op1) + Live(f(c, a, b).value.op2) < Live(a) + Live(b)
    {
    }
  }

  /** The callback keeps `oldPos` and `newLen` as counters of the characters
      the written ops consume and write. */
  lemma {:induction false} FollowFnCounts(hasFirst: seq<nat> -> bool, reverse: bool, bank1: string, bank2: string)
    ensures Counts(FollowFn(hasFirst, reverse, bank1, bank2), (c: Follow) => c.oldPos, OldChars)
    ensures Counts(FollowFn(hasFirst, reverse, bank1, bank2), (c: Follow) => c.newLen, NewChars)
  {
    var f := FollowFn(hasFirst, reverse, bank1, bank2);
    forall c: Follow, a: Op, b: Op | f(c, a, b).Ok?
      ensures f(c, a, b).value.state.oldPos == c.oldPos + SumOf(OldChars, Emit(f(c, a, b).value.out))
      ensures f(c, a, b).value.state.newLen == c.newLen + SumOf(NewChars, Emit(f(c, a, b).value.out))
    {
    }
  }

  // ------------------------------------------------------------ one step, case by case

  /** Inserts go before everything else.  An insert of `cs1` alone, or one
      that wins the tie-break, becomes a keep of its size with no
      attributes; an insert of `cs2` alone, or one that wins, is written as
      it is.  Both skip their text in their char bank, which must hold it. */
  lemma {:induction false} FollowInserts(hasFirst: seq<nat> -> bool, reverse: bool, bank1: string, bank2: string,
                                         c: Follow, op1: Op, op2: Op)
    requires op1.opcode == Insert || op2.opcode == Insert
    ensures var r := Transform(hasFirst, reverse, bank1, bank2, c, op1, op2);
            && (op1.opcode == Insert && op2.opcode != Insert && r.Ok? ==>
                  r.value.out == Op(Keep, op1.chars, op1.lines, []) && r.value.op1.opcode == Null && r.value.op2 == op2
                  && r.value.state.pos1 == c.pos1 + Width(op1))
            && (op2.opcode == Insert && op1.opcode != Insert && r.Ok? ==>
                  r.value.out == op2 && r.value.op2.opcode == Null && r.value.op1 == op1
                  && r.value.state.pos2 == c.pos2 + Width(op2))
            && (op1.opcode == Insert && op2.opcode != Insert ==>
                  (r.Err? <==> !(0 <= c.pos1 && c.pos1 + Width(op1) <= |bank1|)))
  {
  }

  /** When both changesets insert at the same place, the first characters
      of both inserts are looked at (each bank must have one left), and the
      insert `Pick` chooses is dealt with first. */
  lemma {:induction false} FollowTieBreak(hasFirst: seq<nat> -> bool, reverse: bool, bank1: string, bank2: string,
                                          c: Follow, op1: Op, op2: Op)
    requires op1.opcode == Insert && op2.opcode == Insert
    ensures var r := Transform(hasFirst, reverse, bank1, bank2, c, op1, op2);
            && (!(0 <= c.pos1 && c.pos1 + 1 <= |bank1|) ==> r == Err(OutOfBounds))
            && (!(0 <= c.pos2 && c.pos2 + 1 <= |bank2|) ==> r == Err(OutOfBounds))
            && (r.Ok? ==>
                  var which := Pick(hasFirst(op1.attribs), hasFirst(op2.attribs),
                                    bank1[c.pos1] == '\n', bank2[c.pos2] == '\n', reverse);
                  && (which == 1 ==> r.value.out == Op(Keep, op1.chars, op1.lines, []) && r.value.op1.opcode == Null
                                     && r.value.op2 == op2)
                  && (which == 2 ==> r.value.out == op2 && r.value.op2.opcode == Null && r.value.op1 == op1))
  {
    if 0 <= c.pos1 && c.pos1 + 1 <= |bank1| && 0 <= c.pos2 && c.pos2 + 1 <= |bank2| {
      assert (bank1[c.pos1..c.pos1 + 1] == "\n") == (bank1[c.pos1] == '\n');
      assert (bank2[c.pos2..c.pos2 + 1] == "\n") == (bank2[c.pos2] == '\n');
    }
  }

  /** Text `cs1` deletes is gone for `cs2` too: nothing is written, and the
      shorter of the two ops is used up. */
  lemma {:induction false} FollowDeletedFirst(hasFirst: seq<nat> -> bool, reverse: bool, bank1: string, bank2: string,
                                              c: Follow, op1: Op, op2: Op)
    requires op1.opcode == Delete && op2.opcode != Insert
    ensures var r := Transform(hasFirst, reverse, bank1, bank2, c, op1, op2);
            r.Ok? && r.value.out.opcode == Null && r.value.state == c
            && (op2.opcode != Null && op1.chars <= op2.chars ==>
                  r.value.op1.opcode == Null && r.value.op2 == Shorten(op2, op1))
            && (op2.opcode != Null && op1.chars > op2.chars ==>
                  r.value.op2.opcode == Null && r.value.op1.opcode == Delete
                  && r.value.op1.chars == op1.chars - op2.chars && r.value.op1.lines == op1.lines - op2.lines)
  {
  }

  /** Text `cs2` deletes that `cs1` kept is still deleted, over the part
      both ops cover, with `cs2`'s attributes. */
  lemma {:induction false} FollowDeletedSecond(hasFirst: seq<nat> -> bool, reverse: bool, bank1: string, bank2: string,
                                               c: Follow, op1: Op, op2: Op)
    requires op2.opcode == Delete && op1.opcode in {Keep, Null}
    ensures var r := Transform(hasFirst, reverse, bank1, bank2, c, op1, op2);
            r.Ok? && r.value.out.opcode == Delete && r.value.out.attribs == op2.attribs && r.value.state == c
            && (op1.opcode == Null ==> r.value.out == op2)
            && (op1.opcode == Keep ==>
                  r.value.out.chars == Min(op1.chars, op2.chars)
                  && r.value.out.lines == (if op2.chars <= op1.chars then op2.lines else op1.lines))
  {
  }

  /** Text both changesets keep is kept, with `cs2`'s attributes less the
      ones `cs1` already set (`followAttributes`), which may grow the pool. */
  lemma {:induction false} FollowKeptBoth(hasFirst: seq<nat> -> bool, reverse: bool, bank1: string, bank2: string,
                                          c: Follow, op1: Op, op2: Op)
    requires op1.opcode == Keep && op2.opcode == Keep
    ensures var r := Transform(hasFirst, reverse, bank1, bank2, c, op1, op2);
            var att := FollowAttributes(op1.attribs, op2.attribs, c.pool);
            && (att.Err? <==> r.Err?)
            && (r.Ok? ==>
                  r.value.out == Op(Keep, Min(op1.chars, op2.chars),
                                    if op1.chars <= op2.chars then op1.lines else op2.lines, att.value.0)
                  && r.value.state.pool == att.value.1)
  {
  }

  /** A keep of one side facing a used-up other side: a keep of `cs2` is
      written as it is, while a keep of `cs1` is dropped without writing
      anything, so none of its attributes leak into the result. */
  lemma {:induction false} FollowKeptAlone(hasFirst: seq<nat> -> bool, reverse: bool, bank1: string, bank2: string,
                                           c: Follow, op1: Op, op2: Op)
    ensures op1.opcode == Null && op2.opcode == Keep ==>
              Transform(hasFirst, reverse, bank1, bank2, c, op1, op2) == Ok(Zipped(c, op1, op2.(opcode := Null), op2))
    ensures op1.opcode == Keep && op2.opcode == Null ==>
              Transform(hasFirst, reverse, bank1, bank2, c, op1, op2).value.out.opcode == Null
  {
  }

  // ------------------------------------------------------------ the whole transform

  /** `follow(cs1, cs2, reverseInsertOrder, pool)`: both changesets must
      start from the same length.  The result starts from the length after
      `cs1`; its new length is what the ops wrote plus the part of the text
      after `cs1` they did not reach.  It also returns the pool, which
      following attributes may have grown. */
  function FollowSpec(cs1: string, cs2: string, reverse: bool, p: Pool): (r: Result<(string, Pool)>)
    ensures Unpack(cs1).Err? || Unpack(cs2).Err? ==> r == Err(NotAChangeset)
    ensures Unpack(cs1).Ok? && Unpack(cs2).Ok? && Unpack(cs1).value.oldLen != Unpack(cs2).value.oldLen
            ==> r == Err(MismatchedLength)
  {
    var c1 :- Unpack(cs1);
    var c2 :- Unpack(cs2);
    if c1.oldLen != c2.oldLen then Err(MismatchedLength)
    else FollowUnpacked(c1, c2, reverse, p)
  }

  lemma FollowSpecUnpacked(cs1: string, cs2: string, reverse: bool, p: Pool)
    requires Unpack(cs1).Ok? && Unpack(cs2).Ok? && Unpack(cs1).value.oldLen == Unpack(cs2).value.oldLen
    ensures FollowSpec(cs1, cs2, reverse, p) == FollowUnpacked(Unpack(cs1).value, Unpack(cs2).value, reverse, p)
  {
  }

  /** `follow` past its length check. */
  function FollowUnpacked(c1: Changeset, c2: Changeset, reverse: bool, p: Pool): (r: Result<(string, Pool)>) {
    FollowFnProgresses(AttributeTester(InsertFirst, p), reverse, c1.charBank, c2.charBank);
    var z :- ApplyZipSpec(FollowFn(AttributeTester(InsertFirst, p), reverse, c1.charBank, c2.charBank),
                          Follow(p, 0, 0, 0, 0), c1.ops, c2.ops);
    Ok((Pack(c1.newLen, z.0.newLen + (c1.newLen - z.0.oldPos), z.1, c2.charBank), z.0.pool))
  }

  lemma {:induction false} FollowUnpackedCases(c1: Changeset, c2: Changeset, reverse: bool, p: Pool)
    ensures Progresses(FollowFn(AttributeTester(InsertFirst, p), reverse, c1.charBank, c2.charBank))
    ensures var z := ApplyZipSpec(FollowFn(AttributeTester(InsertFirst, p), reverse, c1.charBank, c2.charBank),
                                  Follow(p, 0, 0, 0, 0), c1.ops, c2.ops);
            && (z.Err? ==> FollowUnpacked(c1, c2, reverse, p) == Err(z.error))
            && (z.Ok? ==> FollowUnpacked(c1, c2, reverse, p)
                          == Ok((Pack(c1.newLen, z.value.0.newLen + (c1.newLen - z.value.0.oldPos), z.value.1, c2.charBank),
                                 z.value.0.pool)))
  {
    FollowFnProgresses(AttributeTester(InsertFirst, p), reverse, c1.charBank, c2.charBank);
    hide ApplyZipSpec, ZipFrom, ZipText, AttributeTester, FollowFn, FollowStep, Transform, Pack;
  }

  /** The ops `follow` writes, before the assembler merges them. */
  function FollowOuts(c1: Changeset, c2: Changeset, reverse: bool, p: Pool): seq<Op> {
    FollowFnProgresses(AttributeTester(InsertFirst, p), reverse, c1.charBank, c2.charBank);
    var z := ZipFrom(FollowFn(AttributeTester(InsertFirst, p), reverse, c1.charBank, c2.charBank),
                     Follow(p, 0, 0, 0, 0), NewOp(Null), NewOp(Null), ParseOps(c1.ops), ParseOps(c2.ops));
    if z.Ok? then z.value.1 else []
  }

  /** The zip of `follow`, when it succeeds, as returned by `applyZip`. */
  function FollowZip(c1: Changeset, c2: Changeset, reverse: bool, p: Pool): Result<(Follow, string)> {
    FollowFnProgresses(AttributeTester(InsertFirst, p), reverse, c1.charBank, c2.charBank);
    ApplyZipSpec(FollowFn(AttributeTester(InsertFirst, p), reverse, c1.charBank, c2.charBank),
                 Follow(p, 0, 0, 0, 0), c1.ops, c2.ops)
  }

  /** The result of `follow` unpacks to `cs1`'s new length and the counted
      new length. */
  lemma {:induction false} FollowPacked(cs1: string, cs2: string, reverse: bool, p: Pool)
    requires FollowSpec(cs1, cs2, reverse, p).Ok?
    requires Unpack(cs1).value.newLen >= 0
    ensures var c1 := Unpack(cs1).value;
            var z := FollowZip(c1, Unpack(cs2).value, reverse, p);
            && z.Ok?
            && Unpack(FollowSpec(cs1, cs2, reverse, p).value.0)
               == Ok(Changeset(c1.newLen, z.value.0.newLen + (c1.newLen - z.value.0.oldPos), z.value.1, Unpack(cs2).value.charBank))
  {
    hide AttributeTester, FollowFn, ApplyZipSpec, Pack;
    var c1 := Unpack(cs1).value;
    var c2 := Unpack(cs2).value;
    FollowFnProgresses(AttributeTester(InsertFirst, p), reverse, c1.charBank, c2.charBank);
    var f := FollowFn(AttributeTester(InsertFirst, p), reverse, c1.charBank, c2.charBank);
    var z := ApplyZipSpec(f, Follow(p, 0, 0, 0, 0), c1.ops, c2.ops).value;
    var newLen := z.0.newLen + (c1.newLen - z.0.oldPos);
    assert FollowSpec(cs1, cs2, reverse, p).value.0 == Pack(c1.newLen, newLen, z.1, c2.charBank);
    ApplyZipPackable(f, Follow(p, 0, 0, 0, 0), c1.ops, c2.ops);
    UnpackPack(c1.newLen, newLen, z.1, c2.charBank);
  }

  /** Over the whole zip, `oldPos` and `newLen` count what the written ops
      consume and write. */
  lemma {:induction false} FollowCounted(c1: Changeset, c2: Changeset, reverse: bool, p: Pool)
    requires FollowZip(c1, c2, reverse, p).Ok?
    ensures var z := FollowZip(c1, c2, reverse, p).value;
            var outs := FollowOuts(c1, c2, reverse, p);
            z.0.oldPos == SumOf(OldChars, outs) && z.0.newLen == SumOf(NewChars, outs)
  {
    var hasFirst := AttributeTester(InsertFirst, p);
    FollowFnProgresses(hasFirst, reverse, c1.charBank, c2.charBank);
    var f := FollowFn(hasFirst, reverse, c1.charBank, c2.charBank);
    var s0 := Follow(p, 0, 0, 0, 0);
    ApplyZipSpecRun(f, s0, c1.ops, c2.ops);
    FollowFnCounts(hasFirst, reverse, c1.charBank, c2.charBank);
    ZipFromCounts(f, (c: Follow) => c.oldPos, OldChars, s0, NewOp(Null), NewOp(Null), ParseOps(c1.ops), ParseOps(c2.ops));
    ZipFromCounts(f, (c: Follow) => c.newLen, NewChars, s0, NewOp(Null), NewOp(Null), ParseOps(c1.ops), ParseOps(c2.ops));
  }

  /** The lengths of the result: it unpacks, starts from `cs1`'s new
      length, and its new length is the characters written by keeps and
      inserts plus what the keeps and deletes left unconsumed of the text
      after `cs1`. */
  lemma {:induction false} FollowLengths(cs1: string, cs2: string, reverse: bool, p: Pool)
    requires FollowSpec(cs1, cs2, reverse, p).Ok?
    requires Unpack(cs1).value.newLen >= 0
    ensures var c := Unpack(FollowSpec(cs1, cs2, reverse, p).value.0);
            var outs := FollowOuts(Unpack(cs1).value, Unpack(cs2).value, reverse, p);
            && c.Ok?
            && c.value.oldLen == Unpack(cs1).value.newLen
            && c.value.newLen == SumOf(NewChars, outs) + (Unpack(cs1).value.newLen - SumOf(OldChars, outs))
  {
    FollowPacked(cs1, cs2, reverse, p);
    FollowCounted(Unpack(cs1).value, Unpack(cs2).value, reverse, p);
  }

  /** `follow(cs1, cs2, reverseInsertOrder, pool)`. */
  method FollowChangesets(cs1: string, cs2: string, reverse: bool, p: Pool) returns (r: Result<(string, Pool)>)
    ensures r == FollowSpec(cs1, cs2, reverse, p)
  {
    hide *;
    var c1 := Unpack(cs1);
    if c1.Err? {
      return Err(c1.error);
    }
    var c2 := Unpack(cs2);
    if c2.Err? {
      return Err(c2.error);
    }
    if c1.value.oldLen != c2.value.oldLen {
      return Err(MismatchedLength);
    }
    FollowSpecUnpacked(cs1, cs2, reverse, p);
    FollowUnpackedCases(c1.value, c2.value, reverse, p);
    var z := ApplyZip(FollowFn(AttributeTester(InsertFirst, p), reverse, c1.value.charBank, c2.value.charBank),
                      Follow(p, 0, 0, 0, 0), c1.value.ops, c2.value.ops);
    if z.Err? {
      return Err(z.error);
    }
    var newLen := z.value.0.newLen + (c1.value.newLen - z.value.0.oldPos);
    return Ok((Pack(c1.value.newLen, newLen, z.value.1, c2.value.charBank), z.value.0.pool));
  }
}
