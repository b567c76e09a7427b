/** Changesets written op by op into a smart op assembler: `builder`,
    `makeSplice` and `appendATextToAssembler` (Changeset.js lines
    1465-1483, 1741-1763 and 1836-1879). */
module Builders {
  import opened Results
  import opened Ops
  import opened Texts
  import opened Pools
  import opened Attributes
  import opened Codec
  import opened OpIters
  import opened Cursors
  import opened Assemblers
  import opened Zips
  import opened Apply
  import opened Replays

  lemma {:induction false} SmartFromConcat(s: SmartState, xs: seq<Op>, ys: seq<Op>)
    ensures SmartFrom(s, xs + ys) == SmartFrom(SmartFrom(s, xs), ys)
    decreases |ys|
  {
    if ys == [] {
      assert xs + ys == xs;
    } else {
      var front := ys[..|ys| - 1];
      assert (xs + ys)[..|xs + ys| - 1] == xs + front;
      SmartFromConcat(s, xs, front);
    }
  }

  lemma {:induction false} SmartInitWF()
    ensures SmartWF(SmartInit)
  {
  }

  // ---------------------------------------------------------------- builder

  /** The attributes `keep(N, L, attribs, pool)` gives its op: what
      `makeAttribsString` makes of them, or none when it makes nothing
      (`|| ''`). */
  function KeepAttribs(attribs: AttribsArg, pool: Pool): (r: (seq<nat>, Pool))
    ensures MakeAttribsString('=', attribs, pool).Ok? ==> r == MakeAttribsString('=', attribs, pool).value
    ensures MakeAttribsString('=', attribs, pool).Err? ==> r == ([], pool)
  {
    match MakeAttribsString('=', attribs, pool)
    case Ok(v) => v
    case Err(_) => ([], pool)
  }

  /** The changeset `toString()` writes for the ops given to the assembler
      and the text given to `insert`: the new length is the old one plus
      the assembler's length change. */
  function Built(oldLen: int, ops: seq<Op>, bank: string): string {
    Pack(oldLen, oldLen + NetLength(ops), ZipText(ops), bank)
  }

  /** `builder(oldLen)`: a smart op assembler and a string assembler for
      the char bank behind `keep`, `keepText`, `insert`, `remove` and
      `toString`.  Each method returns the pool in place of `self`, as the
      pool is the one other thing it may change. */
  class Builder {
    const oldLen: int
    const assem: SmartOpAssembler
    const charBank: StringAssembler
    /** The ops appended to the assembler, and the text given to `insert`. */
    ghost var ops: seq<Op>
    ghost var bank: string
    ghost const Repr: set<object>

    ghost predicate Valid()
      reads this, Repr
    {
      Repr == assem.Repr + {assem, charBank} && charBank !in assem.Repr
      && assem.Valid() && assem.State() == SmartFrom(SmartInit, ops)
      && Join(charBank.pieces) == bank
    }

    constructor (oldLen: int)
      ensures Valid() && fresh(Repr) && this.oldLen == oldLen && ops == [] && bank == ""
    {
      this.oldLen := oldLen;
      var a := new SmartOpAssembler();
      var c := new StringAssembler();
      assem, charBank := a, c;
      ops, bank := [], "";
      Repr := a.Repr + {a, c};
    }

    /** `keep(N, L, attribs, pool)`. */
    method Keep(N: int, L: int, attribs: AttribsArg, pool: Pool) returns (p: Pool)
      requires Valid()
      modifies this, Repr
      ensures Valid() && bank == old(bank)
      ensures ops == old(ops) + [Op(OpCode.Keep, N, L, KeepAttribs(attribs, pool).0)] && p == KeepAttribs(attribs, pool).1
    {
      hide SmartFrom, SmartAppend, MakeAttribsString, TextOps, Join, SmartInit;
      var a := MakeAttribsString('=', attribs, pool);
      var ids, q := [], pool;
      if a.Ok? {
        ids, q := a.value.0, a.value.1;
      }
      var o := Op(OpCode.Keep, N, L, ids);
      assem.Append(o);
      SmartFromSnoc(SmartInit, ops, o);
      ops := ops + [o];
      return q;
    }

    /** `keepText(text, attribs, pool)`. */
    method KeepText(text: string, attribs: AttribsArg, pool: Pool) returns (r: Result<Pool>)
      requires Valid()
      modifies this, Repr
      ensures Valid() && bank == old(bank)
      ensures var a := TextAttribs('=', text, attribs, pool);
              (r.Err? <==> a.Err?) && (r.Err? ==> r.error == a.error && ops == old(ops))
              && (r.Ok? ==> r.value == a.value.1 && ops == old(ops) + TextOps(OpCode.Keep, text, a.value.0))
    {
      hide SmartFrom, SmartAppend, MakeAttribsString, TextAttribs, TextOps, Join, SmartInit;
      r := assem.AppendOpWithText(OpCode.Keep, text, attribs, pool);
      if r.Ok? {
        ghost var a := TextAttribs('=', text, attribs, pool);
        SmartFromConcat(SmartInit, ops, TextOps(OpCode.Keep, text, a.value.0));
        ops := ops + TextOps(OpCode.Keep, text, a.value.0);
      }
    }

    /** `insert(text, attribs, pool)`: the text goes into the char bank
      too. */
    method Insert(text: string, attribs: AttribsArg, pool: Pool) returns (r: Result<Pool>)
      requires Valid()
      modifies this, Repr
      ensures Valid()
      ensures var a := TextAttribs('+', text, attribs, pool);
              (r.Err? <==> a.Err?) && (r.Err? ==> r.error == a.error && ops == old(ops) && bank == old(bank))
              && (r.Ok? ==> r.value == a.value.1 && ops == old(ops) + TextOps(OpCode.Insert, text, a.value.0)
                            && bank == old(bank) + text)
    {
      hide SmartFrom, SmartAppend, MakeAttribsString, TextAttribs, TextOps, Join, SmartInit;
      r := assem.AppendOpWithText(OpCode.Insert, text, attribs, pool);
      if r.Ok? {
        ghost var a := TextAttribs('+', text, attribs, pool);
        SmartFromConcat(SmartInit, ops, TextOps(OpCode.Insert, text, a.value.0));
        ops := ops + TextOps(OpCode.Insert, text, a.value.0);
        JoinSnoc(charBank.pieces, text);
        charBank.Append(text);
        bank := bank + text;
      }
    }

    /** `remove(N, L)`. */
    method Remove(N: int, L: int)
      requires Valid()
      modifies this, Repr
      ensures Valid() && bank == old(bank)
      ensures ops == old(ops) + [Op(Delete, N, L, [])]
    {
      hide SmartFrom, SmartAppend, MakeAttribsString, TextOps, Join, SmartInit;
      var o := Op(Delete, N, L, []);
      assem.Append(o);
      SmartFromSnoc(SmartInit, ops, o);
      ops := ops + [o];
    }

    /** `toString()`: ends the document and packs what the assembler and
      the char bank hold.  The assembler is used up. */
    method ToString() returns (cs: string)
      requires Valid()
      modifies Repr
      ensures cs == Built(oldLen, ops, bank)
    {
      hide Pack, OpsToString, SmartFrom, SmartAppend, SmartFlushed, MergeFlush, NetLength, Join, SmartOpAssembler.Valid;
      SmartLengthChange(SmartInit, ops);
      SmartInitWF();
      assem.EndDocument();
      var n := assem.GetLengthChange();
      var t := assem.ToString();
      var b := charBank.ToString();
      cs := Pack(oldLen, oldLen + n, t, b);
    }
  }

  lemma BuiltDef(oldLen: int, ops: seq<Op>, bank: string)
    ensures Built(oldLen, ops, bank) == Pack(oldLen, oldLen + NetLength(ops), ZipText(ops), bank)
  {
    hide Pack, ZipText, NetLength, SmartText, SmartEnd, SmartFrom, OpsToString, HeaderString;
  }

  /** What a builder writes unpacks to its old length, the old length plus
      what its ops insert less what they delete, and its char bank. */
  lemma {:induction false} BuiltUnpacks(oldLen: nat, ops: seq<Op>, bank: string)
    ensures Unpack(Built(oldLen, ops, bank)) == Ok(Changeset(oldLen, oldLen + NetLength(ops), ZipText(ops), bank))
  {
    hide *;
    BuiltDef(oldLen, ops, bank);
    ZipTextPackable(ops);
    UnpackPack(oldLen, oldLen + NetLength(ops), ZipText(ops), bank);
  }

  /** What a builder writes, applied to a text of its old length, does
      what its ops do applied one after another, inserts reading the text
      given to `insert`: the merging and reordering inside the assembler
      do not show. */
  lemma {:induction false} BuiltApplies(text: string, ops: seq<Op>, bank: string, b: Applied)
    requires AllParsed(ops) && Run(bank, text, AppliedInit, ops) == Ok(b)
    ensures 0 <= b.strPos <= |text|
    ensures ApplyToTextSpec(Built(|text|, ops, bank), text) == Ok(b.out + text[b.strPos..])
  {
    hide *;
    BuiltDef(|text|, ops, bank);
    ZipTextApplies(bank, text, ops, |text| + NetLength(ops), b);
  }

  // ---------------------------------------------------------------- text ops

  /** The ops `appendOpWithText` makes for a piece of text read exactly
      that piece where they apply. */
  lemma {:induction false} TextOpsRun(bank: string, text: string, a: Applied, opcode: OpCode, piece: string, ids: seq<nat>)
    requires opcode != Null
    requires PeekAt(Source(bank, text, NewOp(opcode)), Pos(a, NewOp(opcode)), |piece|) == Ok(piece)
    ensures Run(bank, text, a, TextOps(opcode, piece, ids)) == Ok(Moved(a, NewOp(opcode), piece))
  {
    if LastIndexOf(piece, '\n') < 0 {
      TextOpsRunLine(bank, text, a, opcode, piece, ids);
    } else {
      TextOpsRunLines(bank, text, a, opcode, piece, ids);
    }
  }

  lemma {:induction false} TextOpsRunLine(bank: string, text: string, a: Applied, opcode: OpCode, piece: string, ids: seq<nat>)
    requires opcode != Null && LastIndexOf(piece, '\n') < 0
    requires PeekAt(Source(bank, text, NewOp(opcode)), Pos(a, NewOp(opcode)), |piece|) == Ok(piece)
    ensures Run(bank, text, a, TextOps(opcode, piece, ids)) == Ok(Moved(a, NewOp(opcode), piece))
  {
    var o := Op(opcode, |piece|, 0, ids);
    CountNone(piece, '\n');
    assert Source(bank, text, o) == Source(bank, text, NewOp(opcode)) && Pos(a, o) == Pos(a, NewOp(opcode));
    assert Width(o) == |piece|;
    assert Moved(a, o, piece) == Moved(a, NewOp(opcode), piece);
    assert TextOps(opcode, piece, ids) == [o];
    StepOf(bank, text, a, o, piece);
    RunOne(bank, text, a, o);
  }

  lemma {:induction false} TextOpsRunLines(bank: string, text: string, a: Applied, opcode: OpCode, piece: string, ids: seq<nat>)
    requires opcode != Null && LastIndexOf(piece, '\n') >= 0
    requires PeekAt(Source(bank, text, NewOp(opcode)), Pos(a, NewOp(opcode)), |piece|) == Ok(piece)
    ensures Run(bank, text, a, TextOps(opcode, piece, ids)) == Ok(Moved(a, NewOp(opcode), piece))
  {
    var k := LastIndexOf(piece, '\n');
    var src, p := Source(bank, text, NewOp(opcode)), Pos(a, NewOp(opcode));
    var u, v := piece[..k + 1], piece[k + 1..];
    var o1 := Op(opcode, k + 1, Count(piece, '\n'), ids);
    var o2 := Op(opcode, |piece| - (k + 1), 0, ids);
    assert Source(bank, text, o1) == src && Pos(a, o1) == p && Width(o1) == |u|;
    assert Source(bank, text, o2) == src && Width(o2) == |v|;
    hide *;
    TextOpsAtNewline(opcode, piece, ids);
    PeekSplit(src, p, u, v);
    var m := Moved(a, o1, u);
    MovedTwice(a, o1, o2, NewOp(opcode), u, v);
    StepOf(bank, text, a, o1, u);
    StepOf(bank, text, m, o2, v);
    RunPair(bank, text, a, o1, o2);
  }

  /** A text with a newline makes two ops: up to and including its last
      newline, and the rest, which has none. */
  lemma {:induction false} TextOpsAtNewline(opcode: OpCode, piece: string, ids: seq<nat>)
    requires LastIndexOf(piece, '\n') >= 0
    ensures var k := LastIndexOf(piece, '\n');
            var u, v := piece[..k + 1], piece[k + 1..];
            && TextOps(opcode, piece, ids)
               == [Op(opcode, k + 1, Count(piece, '\n'), ids), Op(opcode, |piece| - (k + 1), 0, ids)]
            && piece == u + v && Count(piece, '\n') == Count(u, '\n') && Count(v, '\n') == 0
  {
    var k := LastIndexOf(piece, '\n');
    var u, v := piece[..k + 1], piece[k + 1..];
    assert piece == u + v;
    CountAppend(u, v, '\n');
    CountNone(v, '\n');
  }

  /** A span read whole can be read in two parts. */
  lemma {:induction false} PeekSplit(src: string, p: int, u: string, v: string)
    requires PeekAt(src, p, |u + v|) == Ok(u + v)
    ensures PeekAt(src, p, |u|) == Ok(u) && PeekAt(src, p + |u|, |v|) == Ok(v)
  {
    assert src[p..p + |u|] == (u + v)[..|u|] == u;
    assert src[p + |u|..p + |u| + |v|] == (u + v)[|u|..] == v;
  }

  // ---------------------------------------------------------------- makeSplice

  /** Where `makeSplice` splices: a start at or past the end moves back
      onto the last character. */
  function SpliceStart(oldLen: int, spliceStart: int): (s: int)
    ensures spliceStart < oldLen ==> s == spliceStart
    ensures spliceStart >= oldLen ==> s == oldLen - 1
  {
    if spliceStart >= oldLen then oldLen - 1 else spliceStart
  }

  /** How many characters `makeSplice` removes: no more than follow the
      start. */
  function SpliceCount(oldLen: int, start: int, numRemoved: int): (n: int)
    ensures n <= oldLen - start && n <= numRemoved
    ensures n == numRemoved || n == oldLen - start
  {
    if numRemoved > oldLen - start then oldLen - start else numRemoved
  }

  /** The ops `makeSplice` appends: keep the text before the start, delete
      the removed text, insert the new text. */
  function SpliceOps(oldFullText: string, start: int, n: int, newText: string, ids: seq<nat>): seq<Op> {
    TextOps(Keep, Substring(oldFullText, 0, start), [])
    + TextOps(Delete, Substring(oldFullText, start, start + n), [])
    + TextOps(Insert, newText, ids)
  }

  /** `makeSplice(oldFullText, spliceStart, numRemoved, newText,
      optNewTextAPairs, pool)`, with the pool as the attributes of the
      new text leave it. */
  function MakeSpliceSpec(oldFullText: string, spliceStart: int, numRemoved: int, newText: string,
                          attribs: AttribsArg, pool: Pool): (r: Result<(string, Pool)>)
    ensures r.Err? <==> attribs.AttribPairs? && attribs.pairs == [] && newText != ""
  {
    var a :- TextAttribs('+', newText, attribs, pool);
    var start := SpliceStart(|oldFullText|, spliceStart);
    var n := SpliceCount(|oldFullText|, start, numRemoved);
    var oldText := Substring(oldFullText, start, start + n);
    var newLen := |oldFullText| + |newText| - |oldText|;
    Ok((Pack(|oldFullText|, newLen, ZipText(SpliceOps(oldFullText, start, n, newText, a.0)), newText), a.1))
  }

  /** The two outcomes of `MakeSpliceSpec`, spelled out. */
  lemma {:induction false} MakeSpliceSpecCases(oldFullText: string, spliceStart: int, numRemoved: int, newText: string,
                                               attribs: AttribsArg, pool: Pool)
    ensures var a := TextAttribs('+', newText, attribs, pool);
            var start := SpliceStart(|oldFullText|, spliceStart);
            var n := SpliceCount(|oldFullText|, start, numRemoved);
            var newLen := |oldFullText| + |newText| - |Substring(oldFullText, start, start + n)|;
            MakeSpliceSpec(oldFullText, spliceStart, numRemoved, newText, attribs, pool)
            == if a.Err? then Err(a.error)
               else Ok((Pack(|oldFullText|, newLen, ZipText(SpliceOps(oldFullText, start, n, newText, a.value.0)), newText), a.value.1))
  {
  }

  method MakeSplice(oldFullText: string, spliceStart: int, numRemoved: int, newText: string,
                    attribs: AttribsArg, pool: Pool) returns (r: Result<(string, Pool)>)
    ensures r == MakeSpliceSpec(oldFullText, spliceStart, numRemoved, newText, attribs, pool)
  {
    hide MakeSpliceSpec, MakeAttribsString, TextAttribs, SmartFrom, SmartAppend, SmartEnd, SmartFlushed, TextOps, Substring, Pack, OpsToString, Join,
         SmartOpAssembler.Valid, SmartOpAssembler.State, ZipText, SpliceOps, SmartText;
    MakeSpliceSpecCases(oldFullText, spliceStart, numRemoved, newText, attribs, pool);
    var oldLen := |oldFullText|;
    var start := spliceStart;
    if start >= oldLen {
      start := oldLen - 1;
    }
    var n := numRemoved;
    if n > |oldFullText| - start {
      n := |oldFullText| - start;
    }
    var oldText := Substring(oldFullText, start, start + n);
    var newLen := oldLen + |newText| - |oldText|;
    var assem := new SmartOpAssembler();
    var before := Substring(oldFullText, 0, start);
    var r1 := assem.AppendOpWithText(Keep, before, NoAttribs, pool);
    var r2 := assem.AppendOpWithText(Delete, oldText, NoAttribs, pool);
    var r3 := assem.AppendOpWithText(Insert, newText, attribs, pool);
    if r3.Err? {
      return Err(r3.error);
    }
    ghost var ids := TextAttribs('+', newText, attribs, pool).value.0;
    SmartFromConcat(SmartInit, TextOps(Keep, before, []), TextOps(Delete, oldText, []));
    SmartFromConcat(SmartInit, TextOps(Keep, before, []) + TextOps(Delete, oldText, []), TextOps(Insert, newText, ids));
    SmartInitWF();
    assem.EndDocument();
    var t := assem.ToString();
    assert start == SpliceStart(oldLen, spliceStart);
    assert n == SpliceCount(oldLen, start, numRemoved);
    SpliceText(oldFullText, start, n, newText, ids);
    return Ok((Pack(oldLen, newLen, t, newText), r3.value));
  }

  /** The text the assembler of `makeSplice` gives for the spliced ops. */
  lemma {:induction false} SpliceText(text: string, s: int, n: int, newText: string, ids: seq<nat>)
    ensures ZipText(SpliceOps(text, s, n, newText, ids))
            == SmartText(SmartEnd(SmartFrom(SmartInit, TextOps(Keep, Substring(text, 0, s), []) + TextOps(Delete, Substring(text, s, s + n), [])
                                                       + TextOps(Insert, newText, ids))))
  {
  }

  /** The spliced ops, applied one after another: the text before the
      start is copied, the removed text skipped and the new text read
      from the char bank. */
  lemma {:induction false} SpliceOpsRun(text: string, s: int, n: int, newText: string, ids: seq<nat>)
    requires 0 <= s && 0 <= n && s + n <= |text|
    ensures Run(newText, text, AppliedInit, SpliceOps(text, s, n, newText, ids))
            == Ok(Applied(|newText|, s + n, text[..s] + newText))
  {
    hide Run, TextOps, ApplyStep, Count, LastIndexOf;
    var A := TextOps(Keep, text[..s], []);
    var B := TextOps(Delete, text[s..s + n], []);
    var C := TextOps(Insert, newText, ids);
    assert SpliceOps(text, s, n, newText, ids) == A + B + C by {
      assert text[0..s] == text[..s];
    }
    var m1 := Applied(0, s, text[..s]);
    var m2 := Applied(0, s + n, text[..s]);
    var m3 := Applied(|newText|, s + n, text[..s] + newText);
    assert PeekAt(text, 0, s) == Ok(text[..s]) by { assert text[0..s] == text[..s]; }
    TextOpsRun(newText, text, AppliedInit, Keep, text[..s], []);
    assert Moved(AppliedInit, NewOp(Keep), text[..s]) == m1;
    assert PeekAt(text, s, |text[s..s + n]|) == Ok(text[s..s + n]);
    TextOpsRun(newText, text, m1, Delete, text[s..s + n], []);
    assert Moved(m1, NewOp(Delete), text[s..s + n]) == m2;
    assert PeekAt(newText, 0, |newText|) == Ok(newText) by { assert newText[0..|newText|] == newText; }
    TextOpsRun(newText, text, m2, Insert, newText, ids);
    assert Moved(m2, NewOp(Insert), newText) == m3;
    RunJoin(newText, text, AppliedInit, A, m1, B, m2);
    RunJoin(newText, text, AppliedInit, A + B, m2, C, m3);
  }

  /** What `makeSplice` writes turns the old text into the old text with
      the removed span replaced by the new text, and its header gives that
      text's length. */
  lemma {:induction false} MakeSpliceApplies(text: string, spliceStart: int, numRemoved: int, newText: string,
                                             attribs: AttribsArg, pool: Pool)
    requires 0 <= spliceStart && 0 <= numRemoved && |text| > 0
    requires MakeSpliceSpec(text, spliceStart, numRemoved, newText, attribs, pool).Ok?
    ensures var cs := MakeSpliceSpec(text, spliceStart, numRemoved, newText, attribs, pool).value.0;
            var s := SpliceStart(|text|, spliceStart);
            var n := SpliceCount(|text|, s, numRemoved);
            && 0 <= s < |text| && 0 <= n && s + n <= |text|
            && ApplyToTextSpec(cs, text) == Ok(text[..s] + newText + text[s + n..])
            && NewLen(cs) == Ok(|text[..s] + newText + text[s + n..]|)
  {
    var s := SpliceStart(|text|, spliceStart);
    var n := SpliceCount(|text|, s, numRemoved);
    hide *;
    var a := TextAttribs('+', newText, attribs, pool);
    var newLen := |text| + |newText| - n;
    assert 0 <= s < |text| && 0 <= n && s + n <= |text|;
    ReplacedIs(text, s, n, newText);
    MakeSpliceSpecCases(text, spliceStart, numRemoved, newText, attribs, pool);
    SplicePackApplies(text, s, n, newText, a.value.0);
    SplicePackLen(text, n, newText, a.value.0, SpliceOps(text, s, n, newText, a.value.0));
  }

  /** On the empty old text the start is clamped to -1 and every substring
      of the old text is empty, so what `makeSplice` writes inserts the new
      text and nothing else. */
  lemma {:induction false} MakeSpliceEmptyApplies(spliceStart: int, numRemoved: int, newText: string,
                                                  attribs: AttribsArg, pool: Pool)
    requires MakeSpliceSpec("", spliceStart, numRemoved, newText, attribs, pool).Ok?
    ensures var cs := MakeSpliceSpec("", spliceStart, numRemoved, newText, attribs, pool).value.0;
            ApplyToTextSpec(cs, "") == Ok(newText) && NewLen(cs) == Ok(|newText|)
  {
    var s := SpliceStart(0, spliceStart);
    var n := SpliceCount(0, s, numRemoved);
    hide *;
    var a := TextAttribs('+', newText, attribs, pool);
    MakeSpliceSpecCases("", spliceStart, numRemoved, newText, attribs, pool);
    SpliceOpsEmpty(s, n, newText, a.value.0);
    SplicePackApplies("", 0, 0, newText, a.value.0);
    ReplacedIs("", 0, 0, newText);
    assert "" + newText + "" == newText;
    SplicePackLen("", 0, newText, a.value.0, SpliceOps("", 0, 0, newText, a.value.0));
  }

  /** Every substring of the empty text is empty, wherever the splice
      starts. */
  lemma {:induction false} SpliceOpsEmpty(s: int, n: int, newText: string, ids: seq<nat>)
    ensures SpliceOps("", s, n, newText, ids) == SpliceOps("", 0, 0, newText, ids)
  {
    assert Substring("", 0, s) == "" == Substring("", 0, 0);
    assert Substring("", s, s + n) == "" == Substring("", 0, 0);
  }

  /** The header of the changeset `makeSplice` packs gives the new length. */
  lemma {:induction false} SplicePackLen(text: string, n: int, newText: string, ids: seq<nat>, ops: seq<Op>)
    ensures NewLen(Pack(|text|, |text| + |newText| - n, ZipText(ops), newText)) == Ok(|text| + |newText| - n)
  {
    hide *;
    ZipTextPackable(ops);
    UnpackPack(|text|, |text| + |newText| - n, ZipText(ops), newText);
  }

  /** The text with `n` characters from `s` on replaced by `newText`. */
  function Replaced(text: string, s: nat, n: nat, newText: string): string
    requires s + n <= |text|
  {
    text[..s] + newText + text[s + n..]
  }

  lemma {:induction false} ReplacedIs(text: string, s: nat, n: nat, newText: string)
    requires s + n <= |text|
    ensures Replaced(text, s, n, newText) == text[..s] + newText + text[s + n..]
    ensures |Replaced(text, s, n, newText)| == |text| + |newText| - n
  {
  }

  /** The changeset `makeSplice` packs replaces the span by the new text. */
  lemma {:induction false} SplicePackApplies(text: string, s: nat, n: nat, newText: string, ids: seq<nat>)
    requires s + n <= |text|
    ensures ApplyToTextSpec(Pack(|text|, |text| + |newText| - n, ZipText(SpliceOps(text, s, n, newText, ids)), newText), text)
            == Ok(Replaced(text, s, n, newText))
  {
    hide *;
    var ops := SpliceOps(text, s, n, newText, ids);
    SpliceRunReplaces(text, s, n, newText, ids);
    SpliceOpsParsed(text, s, n, newText, ids);
    var b := Run(newText, text, AppliedInit, ops).value;
    AppliesFromRun(newText, text, ops, |text| + |newText| - n, b, Replaced(text, s, n, newText));
  }

  /** The ops `makeSplice` writes run cleanly, and what they write followed
      by the text they leave unread is the text with the span replaced. */
  lemma {:induction false} SpliceRunReplaces(text: string, s: nat, n: nat, newText: string, ids: seq<nat>)
    requires s + n <= |text|
    ensures var r := Run(newText, text, AppliedInit, SpliceOps(text, s, n, newText, ids));
            && r.Ok? && 0 <= r.value.strPos <= |text|
            && r.value.out + text[r.value.strPos..] == Replaced(text, s, n, newText)
  {
    SpliceOpsRun(text, s, n, newText, ids);
  }

  /** A changeset whose ops run cleanly on a text turns it into what the
      run wrote, followed by the text the run did not reach. */
  lemma {:induction false} AppliesFromRun(bank: string, text: string, ops: seq<Op>, newLen: int, b: Applied, want: string)
    requires AllParsed(ops) && Run(bank, text, AppliedInit, ops) == Ok(b)
    requires 0 <= b.strPos <= |text| && want == b.out + text[b.strPos..]
    ensures ApplyToTextSpec(Pack(|text|, newLen, ZipText(ops), bank), text) == Ok(want)
  {
    ZipTextApplies(bank, text, ops, newLen, b);
  }

  lemma {:induction false} SpliceOpsParsed(text: string, s: int, n: int, newText: string, ids: seq<nat>)
    ensures AllParsed(SpliceOps(text, s, n, newText, ids))
  {
    var A := TextOps(Keep, Substring(text, 0, s), []);
    var B := TextOps(Delete, Substring(text, s, s + n), []);
    var C := TextOps(Insert, newText, ids);
    TextOpsParsed(Keep, Substring(text, 0, s), []);
    TextOpsParsed(Delete, Substring(text, s, s + n), []);
    TextOpsParsed(Insert, newText, ids);
    AllParsedAppend(A, B);
    AllParsedAppend(A + B, C);
  }

  lemma {:induction false} TextOpsParsed(opcode: OpCode, piece: string, ids: seq<nat>)
    requires opcode != Null
    ensures AllParsed(TextOps(opcode, piece, ids))
  {
  }

  // ---------------------------------------------------------------- appendATextToAssembler

  /** A text with its attribution: an op string covering the text. */
  datatype AText = AText(text: string, attribs: string)

  /** `s.lastIndexOf(c, from)`: the last index at or before `from`, which
      is clamped to the string, holding `c`; -1 when there is none. */
  function LastIndexAtOrBefore(s: string, c: char, from: int): (k: int)
    ensures -1 <= k < |s| && k <= (if from < 0 then 0 else from)
    ensures k >= 0 ==> s[k] == c
    ensures forall j :: k < j < |s| && j <= from ==> s[j] != c
  {
    var e := Clamp(if from < 0 then 1 else from + 1, |s|);
    var k := LastIndexOf(s[..e], c);
    assert forall j :: 0 <= j < e ==> s[..e][j] == s[j];
    k
  }

  /** The ops `appendATextToAssembler` appends for the ops of an
      attribution: all of them, the last one less the text's final
      newline.  When the last op spans several lines, the last line goes
      out as an in-line op of its own. */
  function ATextOps(text: string, ops: seq<Op>): seq<Op> {
    if ops == [] then [] else ops[..|ops| - 1] + LastOps(text, ops[|ops| - 1])
  }

  /** What becomes of the last op. */
  function LastOps(text: string, last: Op): seq<Op> {
    if last.lines <= 1 then
      var end := last.(lines := 0, chars := last.chars - 1);
      if end.chars != 0 then [end] else []
    else
      var tail := |text| - (LastIndexAtOrBefore(text, '\n', |text| - 2) + 1) - 1;
      var end := last.(lines := 0, chars := tail);
      [last.(lines := last.lines - 1, chars := last.chars - (tail + 1))]
      + (if end.chars != 0 then [end] else [])
  }

  /** The final newline is left out: one character and one line fewer,
      whenever the last op carries a newline. */
  lemma {:induction false} ATextTotals(text: string, ops: seq<Op>)
    requires ops != [] && ops[|ops| - 1].lines >= 1
    ensures Chars(ATextOps(text, ops)) == Chars(ops) - 1
    ensures Lines(ATextOps(text, ops)) == Lines(ops) - 1
  {
    var front, last := ops[..|ops| - 1], ops[|ops| - 1];
    assert Chars(ops) == Chars(front) + last.chars && Lines(ops) == Lines(front) + last.lines;
    LastTotals(text, last);
    CharsLinesAppend(front, LastOps(text, last));
  }

  lemma {:induction false} LastTotals(text: string, last: Op)
    requires last.lines >= 1
    ensures Chars(LastOps(text, last)) == last.chars - 1
    ensures Lines(LastOps(text, last)) == last.lines - 1
  {
    if last.lines <= 1 {
      var end := last.(lines := 0, chars := last.chars - 1);
      assert [end][..0] == [];
    } else {
      var tail := |text| - (LastIndexAtOrBefore(text, '\n', |text| - 2) + 1) - 1;
      var mid := last.(lines := last.lines - 1, chars := last.chars - (tail + 1));
      var end := last.(lines := 0, chars := tail);
      var more := if end.chars != 0 then [end] else [];
      CharsLinesAppend([mid], more);
      assert [mid][..0] == [];
      assert [end][..0] == [];
    }
  }

  /** `appendATextToAssembler(atext, assem)`: the loop holds each op back
      until the next one arrives, so that the last one can be cut short. */
  method AppendATextToAssembler(atext: AText, assem: SmartOpAssembler) returns (r: Outcome)
    requires assem.Valid()
    modifies assem, assem.Repr
    ensures assem.Valid()
    ensures r.Fail? <==> AllOps(atext.attribs).Err?
    ensures r.Fail? ==> r.error == ErrorOpcode
    ensures r.Pass? ==> assem.State() == SmartFrom(old(assem.State()), ATextOps(atext.text, AllOps(atext.attribs).value))
  {
    hide SmartAppend, SmartOpAssembler.Valid, OpIter.Valid, ParseOps, ParseOpsFrom, ScanOp, LastOps;
    ghost var s0 := assem.State();
    ghost var st := ParseOps(atext.attribs);
    var start := OpIter.Open(atext.attribs);
    if start.Err? {
      return Fail(start.error);
    }
    var it := start.value;
    var lastOp := NewOp(Null);
    var have := false;
    ghost var sent: seq<Op> := [];
    assert SmartFrom(s0, []) == s0;
    while it.HasNext()
      invariant it.Valid() && it.opsStr == atext.attribs && assem.Valid() && fresh(it)
      invariant it.rest.fault == st.fault
      invariant have ==> sent + [lastOp] + it.rest.ops == st.ops
      invariant !have ==> sent == [] && it.rest.ops == st.ops
      invariant assem.State() == SmartFrom(s0, sent)
      decreases |it.rest.ops|
    {
      ghost var before := it.rest;
      var next := it.Next();
      if next.Err? {
        assert before.ops != [] && StreamNext(before).error == ErrorOpcode;
        return Fail(next.error);
      }
      HoldBack(sent, lastOp, have, next.value, before.ops, it.rest.ops, st.ops);
      if have {
        SmartFromSnoc(s0, sent, lastOp);
        assem.Append(lastOp);
        sent := sent + [lastOp];
      }
      lastOp := next.value;
      have := true;
    }
    assert !st.fault && it.rest.ops == [];
    if !have {
      assert AllOps(atext.attribs) == Ok([]);
      assert ATextOps(atext.text, []) == [];
      return Pass;
    }
    assert sent + [lastOp] + it.rest.ops == sent + [lastOp];
    assert AllOps(atext.attribs) == Ok(sent + [lastOp]);
    AppendLast(atext.text, lastOp, assem);
    SendLast(s0, sent, atext.text, lastOp);
    return Pass;
  }

  /** The op held back goes out when the next one arrives, and the one
      that arrives is held back in its place. */
  lemma {:induction false} HoldBack(sent: seq<Op>, last: Op, have: bool, next: Op, before: seq<Op>, rest: seq<Op>, all: seq<Op>)
    requires have ==> sent + [last] + before == all
    requires !have ==> sent == [] && before == all
    requires before == [next] + rest
    ensures (if have then sent + [last] else sent) + [next] + rest == all
  {
    if have {
      assert sent + [last] + ([next] + rest) == sent + [last] + [next] + rest;
    }
  }

  /** Sending every op but the last, then what becomes of the last, is
      sending the ops `appendATextToAssembler` sends. */
  lemma {:induction false} SendLast(s0: SmartState, front: seq<Op>, text: string, lastOp: Op)
    ensures SmartFrom(SmartFrom(s0, front), LastOps(text, lastOp)) == SmartFrom(s0, ATextOps(text, front + [lastOp]))
  {
    SmartFromConcat(s0, front, LastOps(text, lastOp));
    assert (front + [lastOp])[..|front|] == front;
  }

  /** The end of `appendATextToAssembler`: the last op goes out less the
      text's final newline. */
  method AppendLast(text: string, lastOp: Op, assem: SmartOpAssembler)
    requires assem.Valid()
    modifies assem, assem.Repr
    ensures assem.Valid() && assem.State() == SmartFrom(old(assem.State()), LastOps(text, lastOp))
  {
    hide SmartAppend, SmartOpAssembler.Valid, SmartFrom, LastOps;
    ghost var s0 := assem.State();
    LastOpsSplit(text, lastOp);
    SmartFromNone(s0);
    var last := lastOp;
    ghost var sent: seq<Op> := [];
    if last.lines <= 1 {
      last := last.(lines := 0, chars := last.chars - 1);
    } else {
      var nextToLastNewlineEnd := LastIndexAtOrBefore(text, '\n', |text| - 2) + 1;
      var lastLineLength := |text| - nextToLastNewlineEnd - 1;
      var mid := last.(lines := last.lines - 1, chars := last.chars - (lastLineLength + 1));
      SmartFromPair(s0, mid, mid);
      assem.Append(mid);
      sent := [mid];
      last := last.(lines := 0, chars := lastLineLength);
    }
    assert LastOps(text, lastOp) == sent + (if last.chars != 0 then [last] else []);
    if last.chars != 0 {
      SmartFromSnoc(s0, sent, last);
      assem.Append(last);
    } else {
      assert sent + [] == sent;
    }
  }

  /** `LastOps` by its two cases. */
  lemma {:induction false} LastOpsSplit(text: string, last: Op)
    ensures last.lines <= 1 ==>
              var end := last.(lines := 0, chars := last.chars - 1);
              LastOps(text, last) == [] + (if end.chars != 0 then [end] else [])
    ensures last.lines > 1 ==>
              var tail := |text| - (LastIndexAtOrBefore(text, '\n', |text| - 2) + 1) - 1;
              var end := last.(lines := 0, chars := tail);
              LastOps(text, last) == [last.(lines := last.lines - 1, chars := last.chars - (tail + 1))]
                                     + (if end.chars != 0 then [end] else [])
  {
  }

  lemma {:induction false} SmartFromNone(s: SmartState)
    ensures SmartFrom(s, []) == s
  {
  }
}
