/** The operation model of Changeset.js: `Op` (lines 84-132), its textual
    grammar `(*<id>)* (|<lines>)? [=+-] <chars>` and the op-stream decoder that
    `OpIter` runs (lines 166-230), written as a scanner instead of a regex. */
module Ops {
  import opened Results
  import opened Base36

  /** '' (null), '=' (keep), '+' (insert) and '-' (delete). */
  datatype OpCode = Null | Keep | Insert | Delete

  function OpCodeChar(c: OpCode): char
    requires c != Null
  {
    match c
    case Keep => '='
    case Insert => '+'
    case Delete => '-'
  }

  predicate IsOpCodeChar(c: char) {
    c == '=' || c == '+' || c == '-'
  }

  function CharOpCode(c: char): (o: OpCode)
    requires IsOpCodeChar(c)
    ensures o != Null && OpCodeChar(o) == c
  {
    if c == '=' then Keep else if c == '+' then Insert else Delete
  }

  /** One operation.  `attribs` holds the attribute numbers of the `*<id>`
      prefix in order; `chars` and `lines` are plain integers because the
      combinators may decrement them below zero on malformed input. */
  datatype Op = Op(opcode: OpCode, chars: int, lines: int, attribs: seq<nat>)

  /** `new Op(opcode)`: zero characters, zero lines, no attributes. */
  function NewOp(opcode: OpCode): Op {
    Op(opcode, 0, 0, [])
  }

  /** What the decoder can produce: a real opcode and non-negative counts. */
  predicate Parsed(op: Op) {
    op.opcode != Null && op.chars >= 0 && op.lines >= 0
  }

  /** Decoded ops never carry negative counts; read one as empty. */
  function Width(o: Op): nat {
    if o.chars < 0 then 0 else o.chars
  }

  /** `Math.min`. */
  function Min(a: int, b: int): int {
    if a <= b then a else b
  }

  predicate AllParsed(ops: seq<Op>) {
    forall i :: 0 <= i < |ops| ==> Parsed(ops[i])
  }

  predicate NoNulls(ops: seq<Op>) {
    forall i :: 0 <= i < |ops| ==> ops[i].opcode != Null
  }

  // ---------------------------------------------------------------- encoding

  /** The `*<id>` prefix of an op. */
  function AttribsString(ids: seq<nat>): string {
    if ids == [] then "" else "*" + Digits(ids[0]) + AttribsString(ids[1..])
  }

  /** `Op.toString()`: attributes, then `|lines` unless lines is 0, then the
      opcode and the character count.  A null op has no text (the source
      throws a TypeError); every caller in the file passes a real op. */
  function OpToString(op: Op): string
    requires op.opcode != Null
  {
    AttribsString(op.attribs)
    + (if op.lines != 0 then "|" + NumToString(op.lines) else "")
    + [OpCodeChar(op.opcode)] + NumToString(op.chars)
  }

  /** The concatenated text of a sequence of ops (`OpAssembler.toString`). */
  function OpsToString(ops: seq<Op>): string
    requires NoNulls(ops)
  {
    if ops == [] then "" else OpToString(ops[0]) + OpsToString(ops[1..])
  }

  lemma {:induction false} OpsToStringAppend(a: seq<Op>, b: seq<Op>)
    requires NoNulls(a) && NoNulls(b)
    ensures NoNulls(a + b)
    ensures OpsToString(a + b) == OpsToString(a) + OpsToString(b)
  {
    if a == [] {
      assert a + b == b;
    } else {
      assert (a + b)[0] == a[0];
      assert (a + b)[1..] == a[1..] + b;
      OpsToStringAppend(a[1..], b);
      AppendAssoc(OpToString(a[0]), OpsToString(a[1..]), OpsToString(b));
    }
  }

  lemma {:induction false} AppendAssoc<T>(x: seq<T>, y: seq<T>, z: seq<T>)
    ensures x + (y + z) == (x + y) + z
  {
  }

  // ---------------------------------------------------------------- decoding
  // OpIter runs a global regex from `lastIndex`; its last alternative is
  // empty, so every search matches at the current index.  The functions below
  // scan `s` from index `i` the way that regex does.

  /** The end of the run of base-36 digits that starts at `i`. */
  function DigitEnd(s: string, i: nat): (j: nat)
    requires i <= |s|
    ensures i <= j <= |s|
    ensures j < |s| ==> !IsDigit(s[j])
    decreases |s| - i
  {
    if i < |s| && IsDigit(s[i]) then DigitEnd(s, i + 1) else i
  }

  lemma {:induction false} DigitEndAll(s: string, i: nat)
    requires i <= |s|
    ensures forall k :: i <= k < DigitEnd(s, i) ==> IsDigit(s[k])
    decreases |s| - i
  {
    if i < |s| && IsDigit(s[i]) {
      DigitEndAll(s, i + 1);
    }
  }

  /** A numeral starting at `i`: its value and where it ends. */
  function ScanNum(s: string, i: nat): (r: (nat, nat))
    requires i < |s| && IsDigit(s[i])
    ensures i < r.1 <= |s|
  {
    var j := DigitEnd(s, i);
    DigitEndAll(s, i);
    (NumAt(s, i, j), j)
  }

  /** `(?:\*[0-9a-z]+)*`: the attribute numbers and where they end. */
  function ScanAttribs(s: string, i: nat): (r: (seq<nat>, nat))
    requires i <= |s|
    ensures i <= r.1 <= |s|
    decreases |s| - i
  {
    if i + 1 < |s| && s[i] == '*' && IsDigit(s[i + 1]) then
      var num := ScanNum(s, i + 1);
      var rest := ScanAttribs(s, num.1);
      ([num.0] + rest.0, rest.1)
    else
      ([], i)
  }

  /** `(?:\|([0-9a-z]+))?`: the line count (0 when absent) and where it ends. */
  function ScanLines(s: string, i: nat): (r: (nat, nat))
    requires i <= |s|
    ensures i <= r.1 <= |s|
  {
    if i + 1 < |s| && s[i] == '|' && IsDigit(s[i + 1]) then ScanNum(s, i + 1) else (0, i)
  }

  /** The outcome of one match of OpIter's regex: an op and the index after
      it, the error token `?`, or the empty match that ends the iteration. */
  datatype Scan = Token(op: Op, end: nat) | Halt | Fault

  function ScanOp(s: string, i: nat): (r: Scan)
    requires i <= |s|
    ensures r.Token? ==> i < r.end <= |s| && Parsed(r.op)
  {
    var attribs := ScanAttribs(s, i);
    var lines := ScanLines(s, attribs.1);
    var p := lines.1;
    if p + 1 < |s| && IsOpCodeChar(s[p]) && IsDigit(s[p + 1]) then
      var chars := ScanNum(s, p + 1);
      Token(Op(CharOpCode(s[p]), chars.0, lines.0, attribs.0), chars.1)
    else if i < |s| && s[i] == '?' then
      Fault
    else
      Halt
  }

  /** What an OpIter yields: the ops matched before the iteration stops, and
      whether it stopped at the error token. */
  datatype Stream = Stream(ops: seq<Op>, fault: bool)

  function ParseOpsFrom(s: string, i: nat): (r: Stream)
    requires i <= |s|
    ensures AllParsed(r.ops)
    decreases |s| - i
  {
    match ScanOp(s, i)
    case Token(op, j) =>
      var rest := ParseOpsFrom(s, j);
      Stream([op] + rest.ops, rest.fault)
    case Halt => Stream([], false)
    case Fault => Stream([], true)
  }

  function ParseOps(s: string): Stream {
    ParseOpsFrom(s, 0)
  }

  /** The constructor prefetches the first match, so it throws when the
      stream starts with the error token. */
  function OpenStream(st: Stream): Outcome {
    if st.ops == [] && st.fault then Fail(ErrorOpcode) else Pass
  }

  predicate HasNext(st: Stream) {
    st.ops != []
  }

  /** `next()`: fails when nothing is left, and also when prefetching the
      match after the returned op meets the error token. */
  function StreamNext(st: Stream): (r: Result<(Op, Stream)>)
    ensures r.Ok? ==> [r.value.0] + r.value.1.ops == st.ops && r.value.1.fault == st.fault
    ensures r.Err? <==> st.ops == [] || (|st.ops| == 1 && st.fault)
  {
    if st.ops == [] then Err(NoMoreOperations)
    else if |st.ops| == 1 && st.fault then Err(ErrorOpcode)
    else Ok((st.ops[0], Stream(st.ops[1..], st.fault)))
  }

  // ---------------------------------------------------------------- round trip

  /** `w` occurs in `s` at index `i`. */
  predicate At(s: string, i: nat, w: string) {
    i + |w| <= |s| && forall k :: 0 <= k < |w| ==> s[i + k] == w[k]
  }

  /** Index `j` does not continue a numeral. */
  predicate StopsAt(s: string, j: nat) {
    j <= |s| && (j == |s| || !IsDigit(s[j]))
  }

  lemma {:induction false} AtSplit(s: string, i: nat, a: string, b: string)
    requires At(s, i, a + b)
    ensures At(s, i, a) && At(s, i + |a|, b)
  {
    forall k | 0 <= k < |a| ensures s[i + k] == a[k] {
      assert (a + b)[k] == a[k];
    }
    forall k | 0 <= k < |b| ensures s[i + |a| + k] == b[k] {
      assert (a + b)[|a| + k] == b[k];
    }
  }

  lemma {:induction false} AtIndex(s: string, i: nat, w: string, k: nat)
    requires At(s, i, w) && k < |w|
    ensures s[i + k] == w[k]
  {
  }

  lemma {:induction false} AtSlice(s: string, i: nat, w: string)
    requires At(s, i, w)
    ensures s[i..i + |w|] == w
  {
  }

  lemma {:induction false} AtWhole(s: string)
    ensures At(s, 0, s)
  {
  }

  lemma {:induction false} DigitEndRun(s: string, i: nat, j: nat)
    requires i <= j <= |s|
    requires forall k :: i <= k < j ==> IsDigit(s[k])
    requires StopsAt(s, j)
    ensures DigitEnd(s, i) == j
    decreases j - i
  {
    if i < j {
      DigitEndRun(s, i + 1, j);
    }
  }

  lemma {:induction false} ScanNumDigits(s: string, i: nat, n: nat)
    requires At(s, i, Digits(n)) && StopsAt(s, i + |Digits(n)|)
    ensures i < |s| && IsDigit(s[i])
    ensures ScanNum(s, i) == (n, i + |Digits(n)|)
  {
    var d := Digits(n);
    var j := i + |d|;
    DigitsNumeral(n);
    forall k | i <= k < j ensures IsDigit(s[k]) {
      assert s[i + (k - i)] == d[k - i];
    }
    DigitEndRun(s, i, j);
    assert NumAt(s, i, j) == n by {
      AtSlice(s, i, d);
      NumAtParse(s, i, j);
      ParseDigits(n);
    }
  }

  /** `*id` followed by more attribute ids scans as one more id. */
  lemma {:induction false} ScanAttribsCons(s: string, i: nat, id: nat, j: nat, rest: seq<nat>, e: nat)
    requires i + 1 < |s| && s[i] == '*' && IsDigit(s[i + 1])
    requires ScanNum(s, i + 1) == (id, j) && ScanAttribs(s, j) == (rest, e)
    ensures ScanAttribs(s, i) == ([id] + rest, e)
  {
  }

  lemma {:induction false} AttribsStringCons(ids: seq<nat>)
    requires ids != []
    ensures AttribsString(ids) == "*" + (Digits(ids[0]) + AttribsString(ids[1..]))
  {
  }

  /** The first `*id` of an attribute text scans as that id. */
  lemma {:induction false} ScanAttribsHead(s: string, i: nat, ids: seq<nat>, e: nat) returns (j: nat)
    requires ids != [] && At(s, i, AttribsString(ids)) && e == i + |AttribsString(ids)|
    requires e <= |s| && (e == |s| || (s[e] != '*' && !IsDigit(s[e])))
    ensures i + 1 < |s| && s[i] == '*' && IsDigit(s[i + 1])
    ensures ScanNum(s, i + 1) == (ids[0], j) && j <= |s|
    ensures At(s, j, AttribsString(ids[1..])) && e == j + |AttribsString(ids[1..])|
  {
    var d := Digits(ids[0]);
    var tail := AttribsString(ids[1..]);
    AttribsStringCons(ids);
    AtSplit(s, i, "*", d + tail);
    AtSplit(s, i + 1, d, tail);
    AtIndex(s, i, "*", 0);
    assert StopsAt(s, i + 1 + |d|) by {
      if tail != [] { AtIndex(s, i + 1 + |d|, tail, 0); }
    }
    ScanNumDigits(s, i + 1, ids[0]);
    j := i + 1 + |d|;
  }

  lemma {:induction false} ScanAttribsString(s: string, i: nat, ids: seq<nat>, e: nat)
    requires At(s, i, AttribsString(ids)) && e == i + |AttribsString(ids)|
    requires e <= |s| && (e == |s| || (s[e] != '*' && !IsDigit(s[e])))
    ensures ScanAttribs(s, i) == (ids, e)
    decreases ids
  {
    if ids != [] {
      var j := ScanAttribsHead(s, i, ids, e);
      ScanAttribsString(s, j, ids[1..], e);
      ScanAttribsCons(s, i, ids[0], j, ids[1..], e);
      ConsSplit(ids);
    }
  }

  /** The `|<lines>` part of an op's text (empty when lines is 0). */
  function LinesString(lines: int): string {
    if lines != 0 then "|" + NumToString(lines) else ""
  }

  lemma {:induction false} ScanLinesBar(s: string, i: nat, lines: nat)
    requires lines != 0 && i < |s| && s[i] == '|'
    requires At(s, i + 1, Digits(lines)) && StopsAt(s, i + 1 + |Digits(lines)|)
    ensures ScanLines(s, i) == (lines, i + 1 + |Digits(lines)|)
  {
    ScanNumDigits(s, i + 1, lines);
  }

  lemma {:induction false} ScanLinesString(s: string, i: nat, lines: nat)
    requires At(s, i, LinesString(lines))
    requires var j := i + |LinesString(lines)|; j < |s| && IsOpCodeChar(s[j])
    ensures ScanLines(s, i) == (lines, i + |LinesString(lines)|)
  {
    if lines != 0 {
      var d := Digits(lines);
      assert LinesString(lines) == "|" + d;
      AtSplit(s, i, "|", d);
      AtIndex(s, i, "|", 0);
      ScanLinesBar(s, i, lines);
    }
  }

  /** An op's text as its three parts: attributes, lines, opcode and count. */
  lemma {:induction false} OpToStringSplit(op: Op)
    requires op.opcode != Null
    ensures OpToString(op) == AttribsString(op.attribs) + (LinesString(op.lines)
                              + ([OpCodeChar(op.opcode)] + NumToString(op.chars)))
  {
    AppendAssoc(AttribsString(op.attribs), LinesString(op.lines), [OpCodeChar(op.opcode)]);
    AppendAssoc(AttribsString(op.attribs), LinesString(op.lines) + [OpCodeChar(op.opcode)], NumToString(op.chars));
    AppendAssoc(LinesString(op.lines), [OpCodeChar(op.opcode)], NumToString(op.chars));
  }

  lemma {:induction false} OpToStringParts(op: Op)
    requires Parsed(op)
    ensures OpToString(op) == AttribsString(op.attribs) + (LinesString(op.lines)
                              + ([OpCodeChar(op.opcode)] + Digits(op.chars)))
  {
    OpToStringSplit(op);
  }

  /** One regex match, assembled from the three parts it scans. */
  lemma {:induction false} ScanOpParts(s: string, i: nat, op: Op, a: nat, p: nat, e: nat)
    requires i <= |s| && Parsed(op)
    requires ScanAttribs(s, i) == (op.attribs, a)
    requires ScanLines(s, a) == (op.lines, p)
    requires p + 1 < |s| && s[p] == OpCodeChar(op.opcode) && IsDigit(s[p + 1])
    requires ScanNum(s, p + 1) == (op.chars, e)
    ensures ScanOp(s, i) == Token(op, e)
  {
  }

  /** Where the parts of a text `A + L + [c] + N` sit when it occurs at `i`. */
  lemma {:induction false} AtParts(s: string, i: nat, A: string, L: string, c: char, N: string)
    requires At(s, i, A + (L + ([c] + N)))
    ensures At(s, i, A) && At(s, i + |A|, L) && At(s, i + |A| + |L| + 1, N)
    ensures i + |A| + |L| < |s| && s[i + |A| + |L|] == c
  {
    AtSplit(s, i, A, L + ([c] + N));
    AtSplit(s, i + |A|, L, [c] + N);
    AtSplit(s, i + |A| + |L|, [c], N);
    AtIndex(s, i + |A| + |L|, [c], 0);
  }

  /** The lines part of an op's text starts with `|` or is empty, so it
      never continues the attribute ids before it. */
  lemma {:induction false} LinesStringStart(s: string, a: nat, lines: int, p: nat)
    requires At(s, a, LinesString(lines)) && p == a + |LinesString(lines)|
    requires p < |s| && IsOpCodeChar(s[p])
    ensures a < |s| && s[a] != '*' && !IsDigit(s[a])
  {
    if lines != 0 {
      assert LinesString(lines)[0] == '|';
      AtIndex(s, a, LinesString(lines), 0);
    }
  }

  /** Decoding the three parts of a well-formed op's text gives the op. */
  lemma {:induction false} ScanOpPieces(s: string, i: nat, op: Op, a: nat, p: nat, e: nat)
    requires Parsed(op)
    requires a == i + |AttribsString(op.attribs)| && p == a + |LinesString(op.lines)|
    requires e == p + 1 + |Digits(op.chars)|
    requires At(s, i, AttribsString(op.attribs)) && At(s, a, LinesString(op.lines))
    requires p < |s| && s[p] == OpCodeChar(op.opcode) && At(s, p + 1, Digits(op.chars))
    requires StopsAt(s, e)
    ensures ScanOp(s, i) == Token(op, e)
  {
    ScanNumDigits(s, p + 1, op.chars);
    LinesStringStart(s, a, op.lines, p);
    ScanAttribsString(s, i, op.attribs, a);
    ScanLinesString(s, a, op.lines);
    ScanOpParts(s, i, op, a, p, e);
  }

  /** Decoding the text of a well-formed op gives the op back, provided the
      text after it does not continue its last numeral. */
  lemma {:induction false} ScanOpString(s: string, i: nat, op: Op)
    requires Parsed(op) && At(s, i, OpToString(op))
    requires StopsAt(s, i + |OpToString(op)|)
    ensures ScanOp(s, i) == Token(op, i + |OpToString(op)|)
  {
    assert op.chars >= 0 && op.opcode != Null;
    hide *;
    var A, L, N := AttribsString(op.attribs), LinesString(op.lines), Digits(op.chars);
    var e := i + |OpToString(op)|;
    OpToStringParts(op);
    assert e == i + |A| + |L| + 1 + |N|;
    AtParts(s, i, A, L, OpCodeChar(op.opcode), N);
    ScanOpPieces(s, i, op, i + |A|, i + |A| + |L|, e);
  }

  /** Splitting an occurrence of `head + tail` where `tail` does not begin
      with a digit. */
  lemma {:induction false} AtSplitStops(s: string, i: nat, head: string, tail: string)
    requires At(s, i, head + tail) && StopsAt(s, i + |head + tail|)
    requires tail == [] || !IsDigit(tail[0])
    ensures At(s, i, head) && At(s, i + |head|, tail) && StopsAt(s, i + |head|)
  {
    AtSplit(s, i, head, tail);
    if tail != [] {
      AtIndex(s, i + |head|, tail, 0);
    }
  }

  lemma {:induction false} ParseOpsCons(s: string, i: nat, op: Op, j: nat, more: seq<Op>, k: nat)
    requires i <= |s| && k <= |s| && ScanOp(s, i) == Token(op, j)
    requires ParseOpsFrom(s, j) == Stream(more + ParseOpsFrom(s, k).ops, ParseOpsFrom(s, k).fault)
    ensures ParseOpsFrom(s, i) == Stream([op] + more + ParseOpsFrom(s, k).ops, ParseOpsFrom(s, k).fault)
  {
    assert [op] + (more + ParseOpsFrom(s, k).ops) == [op] + more + ParseOpsFrom(s, k).ops;
  }

  lemma {:induction false} ConsSplit<T>(x: seq<T>)
    requires x != []
    ensures [x[0]] + x[1..] == x
  {
  }

  lemma {:induction false} AllParsedCons(ops: seq<Op>)
    requires AllParsed(ops) && ops != []
    ensures Parsed(ops[0]) && AllParsed(ops[1..]) && NoNulls(ops) && NoNulls(ops[1..])
    ensures OpsToString(ops) == OpToString(ops[0]) + OpsToString(ops[1..])
  {
  }

  /** An op's text followed by text that does not start with a digit scans
      as that op. */
  lemma {:induction false} ScanOpThen(s: string, i: nat, op: Op, tail: string, e: nat)
    requires Parsed(op) && At(s, i, OpToString(op) + tail)
    requires e == i + |OpToString(op) + tail| && StopsAt(s, e)
    requires tail == [] || !IsDigit(tail[0])
    ensures i <= |s| && ScanOp(s, i) == Token(op, i + |OpToString(op)|)
    ensures At(s, i + |OpToString(op)|, tail) && e == i + |OpToString(op)| + |tail|
  {
    AtSplitStops(s, i, OpToString(op), tail);
    ScanOpString(s, i, op);
  }

  /** The first op of an op text scans as itself and leaves the text of the
      remaining ops. */
  lemma {:induction false} ParseOpsHead(s: string, i: nat, ops: seq<Op>, e: nat) returns (j: nat)
    requires AllParsed(ops) && ops != [] && At(s, i, OpsToString(ops))
    requires e == i + |OpsToString(ops)| && StopsAt(s, e)
    ensures i <= |s| && j <= |s| && ScanOp(s, i) == Token(ops[0], j)
    ensures AllParsed(ops[1..]) && At(s, j, OpsToString(ops[1..]))
    ensures e == j + |OpsToString(ops[1..])|
  {
    AllParsedCons(ops);
    OpsToStringHead(ops[1..]);
    ScanOpThen(s, i, ops[0], OpsToString(ops[1..]), e);
    j := i + |OpToString(ops[0])|;
  }

  /** Decoding the text of a sequence of well-formed ops, which ends at `e`,
      yields those ops followed by whatever the text from `e` yields. */
  lemma {:induction false} ParseOpsString(s: string, i: nat, ops: seq<Op>, e: nat)
    requires AllParsed(ops) && At(s, i, OpsToString(ops))
    requires e == i + |OpsToString(ops)| && StopsAt(s, e)
    ensures ParseOpsFrom(s, i) == Stream(ops + ParseOpsFrom(s, e).ops, ParseOpsFrom(s, e).fault)
    decreases ops
  {
    if ops == [] {
      assert ops + ParseOpsFrom(s, i).ops == ParseOpsFrom(s, i).ops;
    } else {
      var j := ParseOpsHead(s, i, ops, e);
      ParseOpsString(s, j, ops[1..], e);
      ParseOpsCons(s, i, ops[0], j, ops[1..], e);
      ConsSplit(ops);
    }
  }

  /** The decode/encode round trip for a whole op string. */
  lemma {:induction false} ParseOpsRoundTrip(ops: seq<Op>)
    requires AllParsed(ops)
    ensures ParseOps(OpsToString(ops)) == Stream(ops, false)
  {
    var s := OpsToString(ops);
    AtWhole(s);
    ParseOpsString(s, 0, ops, |s|);
    assert ops + [] == ops;
  }

  /** An op's text begins with `*`, `|` or its opcode, never with a digit. */
  lemma {:induction false} OpToStringHead(op: Op)
    requires op.opcode != Null
    ensures |OpToString(op)| > 0
    ensures OpToString(op)[0] in {'*', '|', '=', '+', '-'}
  {
    var A := AttribsString(op.attribs);
    var L := LinesString(op.lines);
    var C := [OpCodeChar(op.opcode)] + NumToString(op.chars);
    OpToStringSplit(op);
    if A != [] {
      AppendHead(A, L + C);
      assert A[0] == '*';
    } else if L != [] {
      AppendHead(L, C);
      assert A + (L + C) == L + C;
    } else {
      assert A + (L + C) == C;
    }
  }

  lemma {:induction false} AppendHead(a: string, b: string)
    requires a != []
    ensures (a + b)[0] == a[0]
  {
  }

  /** The text of a sequence of ops never begins with a digit. */
  lemma {:induction false} OpsToStringHead(ops: seq<Op>)
    requires NoNulls(ops)
    ensures OpsToString(ops) == [] || !IsDigit(OpsToString(ops)[0])
  {
    if ops != [] {
      OpToStringHead(ops[0]);
      AppendHead(OpToString(ops[0]), OpsToString(ops[1..]));
    }
  }

  /** `c` occurs nowhere in `s`. */
  predicate Lacks(s: string, c: char) {
    forall k :: 0 <= k < |s| ==> s[k] != c
  }

  lemma {:induction false} LacksAppend(a: string, b: string, c: char)
    requires Lacks(a, c) && Lacks(b, c)
    ensures Lacks(a + b, c)
  {
    forall k | 0 <= k < |a + b| ensures (a + b)[k] != c {
      if k < |a| { assert (a + b)[k] == a[k]; } else { assert (a + b)[k] == b[k - |a|]; }
    }
  }

  lemma {:induction false} NumNoDollar(n: int)
    ensures Lacks(NumToString(n), '$')
  {
    DigitsNumeral(if n < 0 then -n else n);
    var d := Digits(if n < 0 then -n else n);
    assert Lacks(d, '$');
    if n < 0 {
      LacksAppend("-", d, '$');
    }
  }

  lemma {:induction false} AttribsNoDollar(ids: seq<nat>)
    ensures Lacks(AttribsString(ids), '$')
  {
    if ids != [] {
      AttribsNoDollar(ids[1..]);
      NumNoDollar(ids[0]);
      LacksAppend("*", Digits(ids[0]), '$');
      LacksAppend("*" + Digits(ids[0]), AttribsString(ids[1..]), '$');
    }
  }

  lemma {:induction false} OpToStringNoDollar(op: Op)
    requires op.opcode != Null
    ensures Lacks(OpToString(op), '$')
  {
    var A := AttribsString(op.attribs);
    var L := LinesString(op.lines);
    var N := NumToString(op.chars);
    OpToStringSplit(op);
    AttribsNoDollar(op.attribs);
    NumNoDollar(op.lines);
    NumNoDollar(op.chars);
    assert Lacks(L, '$') by {
      if op.lines != 0 { LacksAppend("|", NumToString(op.lines), '$'); }
    }
    LacksAppend([OpCodeChar(op.opcode)], N, '$');
    LacksAppend(L, [OpCodeChar(op.opcode)] + N, '$');
    LacksAppend(A, L + ([OpCodeChar(op.opcode)] + N), '$');
  }

  /** The changeset header relies on this: the op text holds no `$`. */
  lemma {:induction false} OpsToStringNoDollar(ops: seq<Op>)
    requires NoNulls(ops)
    ensures Lacks(OpsToString(ops), '$')
  {
    if ops != [] {
      OpToStringNoDollar(ops[0]);
      OpsToStringNoDollar(ops[1..]);
      LacksAppend(OpToString(ops[0]), OpsToString(ops[1..]), '$');
    }
  }

  /** The characters of the ops whose opcode is one of `kinds`. */
  function Total(ops: seq<Op>, kinds: set<OpCode>): int {
    if ops == [] then 0
    else Total(ops[..|ops| - 1], kinds) + (if ops[|ops| - 1].opcode in kinds then ops[|ops| - 1].chars else 0)
  }


  lemma {:induction false} TotalSnoc(ops: seq<Op>, o: Op, kinds: set<OpCode>)
    ensures Total(ops + [o], kinds) == Total(ops, kinds) + (if o.opcode in kinds then o.chars else 0)
  {
    assert (ops + [o])[..|ops|] == ops;
  }


  lemma TotalEmpty(kinds: set<OpCode>)
    ensures Total([], kinds) == 0
  {
  }

  lemma {:induction false} TotalOne(o: Op, kinds: set<OpCode>)
    ensures Total([o], kinds) == if o.opcode in kinds then o.chars else 0
  {
    assert [o][..0] == [];
  }

  lemma {:induction false} TotalAppend(xs: seq<Op>, ys: seq<Op>, kinds: set<OpCode>)
    ensures Total(xs + ys, kinds) == Total(xs, kinds) + Total(ys, kinds)
    decreases |ys|
  {
    if ys == [] {
      assert xs + ys == xs;
    } else {
      var front := ys[..|ys| - 1];
      assert xs + ys == (xs + front) + [ys[|ys| - 1]];
      assert ys == front + [ys[|ys| - 1]];
      TotalAppend(xs, front, kinds);
      TotalSnoc(xs + front, ys[|ys| - 1], kinds);
      TotalSnoc(front, ys[|ys| - 1], kinds);
    }
  }

  lemma {:induction false} TotalNonNegative(ops: seq<Op>, kinds: set<OpCode>)
    requires AllParsed(ops)
    ensures Total(ops, kinds) >= 0
  {
    if ops != [] {
      assert AllParsed(ops[..|ops| - 1]) && Parsed(ops[|ops| - 1]);
      TotalNonNegative(ops[..|ops| - 1], kinds);
    }
  }


  /** The newlines of the ops whose opcode is one of `kinds`. */
  function LineTotal(ops: seq<Op>, kinds: set<OpCode>): int {
    if ops == [] then 0
    else LineTotal(ops[..|ops| - 1], kinds) + (if ops[|ops| - 1].opcode in kinds then ops[|ops| - 1].lines else 0)
  }

  lemma {:induction false} LineTotalSnoc(ops: seq<Op>, o: Op, kinds: set<OpCode>)
    ensures LineTotal(ops + [o], kinds) == LineTotal(ops, kinds) + (if o.opcode in kinds then o.lines else 0)
  {
    assert (ops + [o])[..|ops|] == ops;
  }
}
