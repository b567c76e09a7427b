/** What `compose` (Changeset.js lines 1396-1425) promises of the text: the
    composed changeset does to a text what the first changeset followed by
    the second does.  The proof follows the zip of `compose` one call of its
    callback at a time, reading both changesets from the front (`Sem`). */
module ComposeText {
  import opened Results
  import opened Pools
  import opened Ops
  import opened Texts
  import opened Codec
  import opened OpIters
  import opened Cursors
  import opened Zips
  import opened Apply
  import opened Replays
  import opened Composition
  import opened Sequential

  // ---------------------------------------------------------------- front readings

  lemma {:induction false} SemHead(g: string, u: string, o: Op, rest: seq<Op>, v: string)
    returns (f: (string, string, string), t: string)
    requires o.opcode != Null && Sem(g, u, Emit(o) + rest) == Ok(v)
    ensures Front(g, u, o) == Ok(f) && Sem(f.1, f.2, rest) == Ok(t) && v == f.0 + t
  {
    assert Emit(o) + rest == [o] + rest;
    SemCons(g, u, o, rest);
    f := Front(g, u, o).value;
    t := Sem(f.1, f.2, rest).value;
  }

  lemma {:induction false} SemBuild(g: string, u: string, o: Op, rest: seq<Op>, f: (string, string, string), t: string)
    requires o.opcode != Null && Front(g, u, o) == Ok(f) && Sem(f.1, f.2, rest) == Ok(t)
    ensures Sem(g, u, Emit(o) + rest) == Ok(f.0 + t)
  {
    assert Emit(o) + rest == [o] + rest;
    SemCons(g, u, o, rest);
  }

  lemma {:induction false} SemSkip(g: string, u: string, o: Op, rest: seq<Op>)
    requires o.opcode == Null
    ensures Sem(g, u, Emit(o) + rest) == Sem(g, u, rest)
  {
    assert Emit(o) + rest == rest;
  }

  lemma {:induction false} SemNone(g: string, u: string)
    ensures Sem(g, u, []) == Ok(u)
  {
  }

  /** The newlines of a string are those of its two halves. */
  lemma {:induction false} CountSplit(s: string, k: nat)
    requires k <= |s|
    ensures Count(s, '\n') == Count(s[..k], '\n') + Count(s[k..], '\n')
  {
    assert s == s[..k] + s[k..];
    CountAppend(s[..k], s[k..], '\n');
  }

  // ---------------------------------------------------------------- the invariant

  /** What is left of the two changesets, read from the front: the ops of
      the first turn `u` into `v`, those of the second turn `v` into `w`.
      `op1` and `op2` are the ops the callback holds, ahead of the rest of
      their streams. */
  ghost predicate Pending(b1: string, b2: string, c: Composing, op1: Op, op2: Op,
                          rest1: seq<Op>, rest2: seq<Op>, u: string, v: string, w: string)
  {
    && (op1.opcode == Null || Parsed(op1)) && (op2.opcode == Null || Parsed(op2))
    && 0 <= c.pos1 <= |b1| && 0 <= c.pos2 <= |b2|
    && Sem(b1[c.pos1..], u, Emit(op1) + rest1) == Ok(v)
    && Sem(b2[c.pos2..], v, Emit(op2) + rest2) == Ok(w)
  }

  /** An op written by the callback, with the characters it appended to the
      new char bank, turns `u` into `u2` while it accounts for the front of
      the final text `w`, leaving `w2`.  Its newline count is right. */
  ghost predicate Writes(out: Op, piece: string, u: string, u2: string, w: string, w2: string) {
    var n := out.chars;
    match out.opcode
    case Null => piece == "" && u2 == u && w2 == w
    case Insert => 0 <= n == |piece| && Count(piece, '\n') == out.lines && u2 == u && w == piece + w2
    case Keep => piece == "" && 0 <= n <= |u| && Count(u[..n], '\n') == out.lines && u2 == u[n..] && w == u[..n] + w2
    case Delete => piece == "" && 0 <= n <= |u| && Count(u[..n], '\n') == out.lines && u2 == u[n..] && w2 == w
  }

  /** One call of the callback: it writes a well-formed op that accounts for
      a front part of the final text, and what it leaves still meets. */
  ghost predicate Stepped(b1: string, b2: string, c: Composing, z: Zipped<Composing>,
                          rest1: seq<Op>, rest2: seq<Op>, u: string, w: string, u2: string, v2: string, w2: string)
  {
    && (z.out.opcode == Null || Parsed(z.out))
    && c.bank <= z.state.bank
    && Writes(z.out, z.state.bank[|c.bank|..], u, u2, w, w2)
    && Pending(b1, b2, z.state, z.op1, z.op2, rest1, rest2, u2, v2, w2)
  }

  /** Read from the front, a written op and the ops after it turn `u` into
      `w`. */
  lemma {:induction false} WritesSem(g: string, piece: string, out: Op, outs: seq<Op>,
                                     u: string, u2: string, w: string, w2: string)
    requires out.opcode == Null || Parsed(out)
    requires Writes(out, piece, u, u2, w, w2) && piece <= g && Sem(g[|piece|..], u2, outs) == Ok(w2)
    ensures Sem(g, u, Emit(out) + outs) == Ok(w)
  {
    var n := out.chars;
    if out.opcode == Null {
      SemSkip(g, u, out, outs);
      assert g[0..] == g;
    } else if out.opcode == Insert {
      assert g[..n] == piece;
      assert Front(g, u, out) == Ok((piece, g[n..], u));
      SemBuild(g, u, out, outs, (piece, g[n..], u), w2);
    } else if out.opcode == Keep {
      assert g[0..] == g;
      assert u[0..n] == u[..n];
      assert Front(g, u, out) == Ok((u[..n], g, u[n..]));
      SemBuild(g, u, out, outs, (u[..n], g, u[n..]), w2);
    } else {
      assert g[0..] == g;
      assert u[0..n] == u[..n];
      assert Front(g, u, out) == Ok(("", g, u[n..]));
      SemBuild(g, u, out, outs, ("", g, u[n..]), w2);
      assert "" + w2 == w2;
    }
  }

  /** What one op read from the front takes and leaves. */
  lemma {:induction false} FrontIs(g: string, u: string, o: Op, f: (string, string, string))
    requires Parsed(o) && Front(g, u, o) == Ok(f)
    ensures var n := o.chars;
            && (o.opcode == Insert ==> n <= |g| && Count(g[..n], '\n') == o.lines && f == (g[..n], g[n..], u))
            && (o.opcode == Keep ==> n <= |u| && Count(u[..n], '\n') == o.lines && f == (u[..n], g, u[n..]))
            && (o.opcode == Delete ==> n <= |u| && Count(u[..n], '\n') == o.lines && f == ("", g, u[n..]))
  {
    if o.chars <= |g| {
      assert g[0..o.chars] == g[..o.chars];
    }
    if o.chars <= |u| {
      assert u[0..o.chars] == u[..o.chars];
    }
  }

  lemma {:induction false} PendingIs(b1: string, b2: string, c: Composing, op1: Op, op2: Op,
                                     rest1: seq<Op>, rest2: seq<Op>, u: string, v: string, w: string)
    requires Pending(b1, b2, c, op1, op2, rest1, rest2, u, v, w)
    ensures (op1.opcode == Null || Parsed(op1)) && (op2.opcode == Null || Parsed(op2))
    ensures 0 <= c.pos1 <= |b1| && 0 <= c.pos2 <= |b2|
    ensures Sem(b1[c.pos1..], u, Emit(op1) + rest1) == Ok(v)
    ensures Sem(b2[c.pos2..], v, Emit(op2) + rest2) == Ok(w)
  {
  }

  lemma {:induction false} WritesNothing(out: Op, u: string, w: string)
    requires out.opcode == Null
    ensures Writes(out, "", u, u, w, w)
  {
  }

  lemma {:induction false} WritesInsert(out: Op, piece: string, u: string, w2: string)
    requires out.opcode == Insert && out.chars == |piece| && Count(piece, '\n') == out.lines
    ensures Writes(out, piece, u, u, piece + w2, w2)
  {
  }

  lemma {:induction false} WritesKeep(out: Op, u: string, w2: string)
    requires out.opcode == Keep && 0 <= out.chars <= |u| && Count(u[..out.chars], '\n') == out.lines
    ensures Writes(out, "", u, u[out.chars..], u[..out.chars] + w2, w2)
  {
  }

  lemma {:induction false} WritesDelete(out: Op, u: string, w: string)
    requires out.opcode == Delete && 0 <= out.chars <= |u| && Count(u[..out.chars], '\n') == out.lines
    ensures Writes(out, "", u, u[out.chars..], w, w)
  {
  }

  lemma {:induction false} SteppedIs(b1: string, b2: string, c: Composing, z: Zipped<Composing>,
                                     rest1: seq<Op>, rest2: seq<Op>, u: string, w: string, u2: string, v2: string, w2: string)
    requires Stepped(b1, b2, c, z, rest1, rest2, u, w, u2, v2, w2)
    ensures (z.out.opcode == Null || Parsed(z.out)) && c.bank <= z.state.bank
    ensures Writes(z.out, z.state.bank[|c.bank|..], u, u2, w, w2)
    ensures Pending(b1, b2, z.state, z.op1, z.op2, rest1, rest2, u2, v2, w2)
  {
  }

  /** A call that leaves the new bank alone, written op and what it leaves. */
  lemma {:induction false} SteppedIntro(b1: string, b2: string, c: Composing, z: Zipped<Composing>,
                                        rest1: seq<Op>, rest2: seq<Op>, u: string, w: string,
                                        u2: string, v2: string, w2: string, piece: string)
    requires z.out.opcode == Null || Parsed(z.out)
    requires z.state.bank == c.bank + piece
    requires Writes(z.out, piece, u, u2, w, w2)
    requires (z.op1.opcode == Null || Parsed(z.op1)) && (z.op2.opcode == Null || Parsed(z.op2))
    requires 0 <= z.state.pos1 <= |b1| && 0 <= z.state.pos2 <= |b2|
    requires Sem(b1[z.state.pos1..], u2, Emit(z.op1) + rest1) == Ok(v2)
    requires Sem(b2[z.state.pos2..], v2, Emit(z.op2) + rest2) == Ok(w2)
    ensures Stepped(b1, b2, c, z, rest1, rest2, u, w, u2, v2, w2)
  {
    assert (c.bank + piece)[|c.bank|..] == piece;
  }

  // ---------------------------------------------------------------- one call, case by case

  /** The first changeset is used up: the second one's op goes through. */
  lemma {:induction false} StepFirstDone(b1: string, b2: string, c: Composing, x1: Op, x2: Op,
                                         rest1: seq<Op>, rest2: seq<Op>, u: string, v: string, w: string)
    returns (u2: string, v2: string, w2: string)
    requires Pending(b1, b2, c, x1, x2, rest1, rest2, u, v, w)
    requires x1.opcode == Null && rest1 == [] && x2.opcode != Null
    requires ComposeStep(b1, b2, c, x1, x2).Ok?
    ensures Stepped(b1, b2, c, ComposeStep(b1, b2, c, x1, x2).value, rest1, rest2, u, w, u2, v2, w2)
  {
    var g1, g2 := b1[c.pos1..], b2[c.pos2..];
    SemSkip(g1, u, x1, rest1);
    SemNone(g1, u);
    var f2, t2 := SemHead(g2, v, x2, rest2, w);
    var z := ComposeStep(b1, b2, c, x1, x2).value;
    SlicePassThrough(x1, x2, c.pool);
    u2, v2, w2 := f2.2, f2.2, t2;
    var n := x2.chars;
    if x2.opcode == Insert {
      assert z.state == Composing(z.state.pool, c.pos1, c.pos2 + n, c.bank + g2[..n]);
      assert b2[c.pos2 + n..] == g2[n..];
      assert (c.bank + g2[..n])[|c.bank|..] == g2[..n];
    } else {
      assert z.state == Composing(z.state.pool, c.pos1, c.pos2, c.bank);
      assert c.bank[|c.bank|..] == "";
      assert u[0..n] == u[..n];
    }
    SemSkip(b1[z.state.pos1..], u2, z.op1, rest1);
    SemNone(b1[z.state.pos1..], u2);
    SemSkip(b2[z.state.pos2..], v2, z.op2, rest2);
  }

  /** A delete of the first changeset goes through: it removes text the
      second changeset never sees. */
  lemma {:induction false} StepFirstDeletes(b1: string, b2: string, c: Composing, x1: Op, x2: Op,
                                            rest1: seq<Op>, rest2: seq<Op>, u: string, v: string, w: string)
    returns (u2: string, v2: string, w2: string)
    requires Pending(b1, b2, c, x1, x2, rest1, rest2, u, v, w)
    requires x1.opcode == Delete
    requires ComposeStep(b1, b2, c, x1, x2).Ok?
    ensures Stepped(b1, b2, c, ComposeStep(b1, b2, c, x1, x2).value, rest1, rest2, u, w, u2, v2, w2)
  {
    var g1 := b1[c.pos1..];
    var f1, t1 := SemHead(g1, u, x1, rest1, v);
    var z := ComposeStep(b1, b2, c, x1, x2).value;
    SlicePassThrough(x1, x2, c.pool);
    var n := x1.chars;
    assert z.state == Composing(z.state.pool, c.pos1, c.pos2, c.bank);
    assert c.bank[|c.bank|..] == "";
    assert u[0..n] == u[..n];
    assert f1 == ("", g1, u[n..]);
    assert v == t1;
    u2, v2, w2 := u[n..], v, w;
    SemSkip(g1, u2, z.op1, rest1);
  }

  /** The second changeset is used up: the first one's insert or keep goes
      through, an insert with its characters from the first bank. */
  lemma {:induction false} StepSecondDone(b1: string, b2: string, c: Composing, x1: Op, x2: Op,
                                          rest1: seq<Op>, rest2: seq<Op>, u: string, v: string, w: string)
    returns (u2: string, v2: string, w2: string)
    requires Pending(b1, b2, c, x1, x2, rest1, rest2, u, v, w)
    requires x1.opcode in {Insert, Keep} && x2.opcode == Null && rest2 == []
    requires ComposeStep(b1, b2, c, x1, x2).Ok?
    ensures Stepped(b1, b2, c, ComposeStep(b1, b2, c, x1, x2).value, rest1, rest2, u, w, u2, v2, w2)
  {
    var g1, g2 := b1[c.pos1..], b2[c.pos2..];
    SemSkip(g2, v, x2, rest2);
    SemNone(g2, v);
    var f1, t1 := SemHead(g1, u, x1, rest1, v);
    var z := ComposeStep(b1, b2, c, x1, x2).value;
    SlicePassThrough(x1, x2, c.pool);
    u2, v2, w2 := f1.2, t1, t1;
    var n := x1.chars;
    if x1.opcode == Insert {
      assert z.state == Composing(z.state.pool, c.pos1 + n, c.pos2, c.bank + g1[..n]);
      assert b1[c.pos1 + n..] == g1[n..];
      assert (c.bank + g1[..n])[|c.bank|..] == g1[..n];
    } else {
      assert z.state == Composing(z.state.pool, c.pos1, c.pos2, c.bank);
      assert c.bank[|c.bank|..] == "";
      assert u[0..n] == u[..n];
    }
    SemSkip(b1[z.state.pos1..], u2, z.op1, rest1);
    SemSkip(b2[z.state.pos2..], v2, z.op2, rest2);
    SemNone(b2[z.state.pos2..], v2);
  }

  /** An insert of the second changeset goes through, with its characters
      from the second bank. */
  lemma {:induction false} StepSecondInserts(b1: string, b2: string, c: Composing, x1: Op, x2: Op,
                                             rest1: seq<Op>, rest2: seq<Op>, u: string, v: string, w: string)
    returns (u2: string, v2: string, w2: string)
    requires Pending(b1, b2, c, x1, x2, rest1, rest2, u, v, w)
    requires x1.opcode in {Insert, Keep} && x2.opcode == Insert
    requires ComposeStep(b1, b2, c, x1, x2).Ok?
    ensures Stepped(b1, b2, c, ComposeStep(b1, b2, c, x1, x2).value, rest1, rest2, u, w, u2, v2, w2)
  {
    var g2 := b2[c.pos2..];
    var f2, t2 := SemHead(g2, v, x2, rest2, w);
    var z := ComposeStep(b1, b2, c, x1, x2).value;
    SlicePassThrough(x1, x2, c.pool);
    var n := x2.chars;
    assert z.state == Composing(z.state.pool, c.pos1, c.pos2 + n, c.bank + g2[..n]);
    assert b2[c.pos2 + n..] == g2[n..];
    assert (c.bank + g2[..n])[|c.bank|..] == g2[..n];
    u2, v2, w2 := u, v, t2;
    SemSkip(b2[z.state.pos2..], v2, z.op2, rest2);
  }

  /** The first changeset's insert or keep, once `n` of its characters
      are accounted for, still reads the rest: the characters it wrote are
      the first `n` of `v`, taken from the bank for an insert and from the
      text for a keep. */
  lemma {:induction false} FirstAfter(g1: string, u: string, x1: Op, y1: Op, rest1: seq<Op>, v: string, n: nat)
    returns (h1: string, u2: string)
    requires x1.opcode in {Insert, Keep} && Parsed(x1) && n <= x1.chars
    requires Sem(g1, u, Emit(x1) + rest1) == Ok(v)
    requires n == x1.chars ==> y1.opcode == Null
    requires n < x1.chars ==> y1.opcode == x1.opcode && y1.chars == x1.chars - n
    requires n < x1.chars ==> y1.lines == x1.lines - Count(v[..n], '\n')
    ensures n <= |v| && (n == x1.chars ==> Count(v[..n], '\n') == x1.lines)
    ensures x1.opcode == Insert ==> n <= |g1| && g1[..n] == v[..n] && h1 == g1[n..] && u2 == u
    ensures x1.opcode == Keep ==> n <= |u| && u[..n] == v[..n] && h1 == g1 && u2 == u[n..]
    ensures y1.opcode == Null || Parsed(y1)
    ensures Sem(h1, u2, Emit(y1) + rest1) == Ok(v[n..])
  {
    var f1, t1 := SemHead(g1, u, x1, rest1, v);
    FrontIs(g1, u, x1, f1);
    if x1.opcode == Insert {
      h1, u2 := g1[n..], u;
      FirstAfterSplit(g1, x1, y1, rest1, f1, t1, g1, u, v, n);
    } else {
      h1, u2 := g1, u[n..];
      FirstAfterSplit(u, x1, y1, rest1, f1, t1, g1, u, v, n);
    }
  }

  /** `FirstAfter` once the op has been read: `src` is where its characters
      come from, the bank `g1` for an insert and the text `u` for a keep. */
  lemma {:induction false} FirstAfterSplit(src: string, x1: Op, y1: Op, rest1: seq<Op>, f1: (string, string, string), t1: string,
                                           g1: string, u: string, v: string, n: nat)
    requires x1.opcode in {Insert, Keep} && Parsed(x1) && n <= x1.chars
    requires src == (if x1.opcode == Insert then g1 else u)
    requires x1.chars <= |src| && Count(src[..x1.chars], '\n') == x1.lines
    requires x1.opcode == Insert ==> f1 == (g1[..x1.chars], g1[x1.chars..], u)
    requires x1.opcode == Keep ==> f1 == (u[..x1.chars], g1, u[x1.chars..])
    requires Sem(f1.1, f1.2, rest1) == Ok(t1) && v == f1.0 + t1
    requires n == x1.chars ==> y1.opcode == Null
    requires n < x1.chars ==> y1.opcode == x1.opcode && y1.chars == x1.chars - n
    requires n < x1.chars ==> y1.lines == x1.lines - Count(v[..n], '\n')
    ensures n <= |v| && (n == x1.chars ==> Count(v[..n], '\n') == x1.lines)
    ensures n <= |src| && src[..n] == v[..n]
    ensures y1.opcode == Null || Parsed(y1)
    ensures x1.opcode == Insert ==> Sem(g1[n..], u, Emit(y1) + rest1) == Ok(v[n..])
    ensures x1.opcode == Keep ==> Sem(g1, u[n..], Emit(y1) + rest1) == Ok(v[n..])
  {
    var m := x1.chars;
    var p := src[..m];
    assert f1.0 == p;
    hide Sem, Front;
    assert v[..n] == p[..n] && v[n..] == p[n..] + t1;
    assert p[..n] == src[..n];
    CountSplit(p, n);
    var h1, u2 := if x1.opcode == Insert then g1[n..] else g1, if x1.opcode == Insert then u else u[n..];
    if n == m {
      assert v[n..] == t1;
      SemSkip(h1, u2, y1, rest1);
      assert h1 == f1.1 && u2 == f1.2;
    } else {
      assert p[n..] == src[n..m];
      var f := if x1.opcode == Insert then (p[n..], g1[m..], u) else (p[n..], g1, u[m..]);
      if x1.opcode == Insert {
        FrontRestInsert(g1, u, y1, n, m);
      } else {
        FrontRest(g1, u, y1, n, m);
      }
      SemBuild(h1, u2, y1, rest1, f, t1);
    }
  }

  /** What is left of an insert after its first `n` characters reads the
      rest of the bank stretch it covers. */
  lemma {:induction false} FrontRestInsert(g: string, u: string, y: Op, n: nat, k: nat)
    requires y.opcode == Insert && n < k <= |g| && y.chars == k - n && y.lines == Count(g[n..k], '\n')
    ensures Front(g[n..], u, y) == Ok((g[n..k], g[k..], u))
  {
    assert g[n..][0..k - n] == g[n..k];
    assert g[n..][k - n..] == g[k..];
  }

  /** What is left of a keep or delete after its first `n` characters
      reads the rest of the stretch it covers. */
  lemma {:induction false} FrontRest(g: string, s: string, y: Op, n: nat, k: nat)
    requires y.opcode in {Keep, Delete} && n < k <= |s| && y.chars == k - n && y.lines == Count(s[n..k], '\n')
    ensures Front(g, s[n..], y) == Ok((if y.opcode == Keep then s[n..k] else "", g, s[k..]))
  {
    assert s[n..][0..k - n] == s[n..k];
    assert s[n..][k - n..] == s[k..];
  }

  /** The second changeset's delete or keep, once `n` of its characters
      are accounted for, still reads the rest: a keep has written the first
      `n` characters of `v`, a delete nothing. */
  lemma {:induction false} SecondAfter(g2: string, v: string, x2: Op, y2: Op, rest2: seq<Op>, w: string, n: nat)
    returns (w2: string)
    requires x2.opcode in {Delete, Keep} && Parsed(x2) && n <= x2.chars
    requires Sem(g2, v, Emit(x2) + rest2) == Ok(w)
    requires n == x2.chars ==> y2.opcode == Null
    requires n < x2.chars ==> y2.opcode == x2.opcode && y2.chars == x2.chars - n
    requires n < x2.chars ==> y2.lines == x2.lines - Count(v[..n], '\n')
    ensures n <= |v| && (n == x2.chars ==> Count(v[..n], '\n') == x2.lines)
    ensures w == (if x2.opcode == Keep then v[..n] else "") + w2
    ensures y2.opcode == Null || Parsed(y2)
    ensures Sem(g2, v[n..], Emit(y2) + rest2) == Ok(w2)
  {
    hide Sem, Front, Emit, Count;
    var k := x2.chars;
    var f2, t2 := SemHead(g2, v, x2, rest2, w);
    FrontIs(g2, v, x2, f2);
    assert k <= |v| && f2.1 == g2 && f2.2 == v[k..] && Sem(g2, v[k..], rest2) == Ok(t2);
    assert f2.0 == if x2.opcode == Keep then v[..k] else "";
    assert v[..k][..n] == v[..n] && v[..k][n..] == v[n..k];
    CountSplit(v[..k], n);
    var kept := if x2.opcode == Keep then v[n..k] else "";
    w2 := kept + t2;
    if x2.opcode == Keep {
      assert v[..k] == v[..n] + v[n..k];
      assert w == (v[..n] + v[n..k]) + t2 == v[..n] + w2;
    } else {
      assert w == "" + t2 == "" + w2;
    }
    if n == k {
      SemSkip(g2, v[n..], y2, rest2);
      assert v[n..k] == "";
      assert w2 == t2;
    } else {
      FrontRest(g2, v, y2, n, k);
      SemBuild(g2, v[n..], y2, rest2, (kept, g2, v[k..]), t2);
    }
  }

  /** The callback's bookkeeping in the general case: an insert of the
      first changeset is read from the first bank, and when the second
      keeps it, what was read goes to the new bank. */
  lemma {:induction false} ComposeStepGeneral(b1: string, b2: string, c: Composing, x1: Op, x2: Op)
    requires x1.opcode in {Insert, Keep} && x2.opcode in {Delete, Keep} && Parsed(x1) && Parsed(x2)
    requires ComposeStep(b1, b2, c, x1, x2).Ok?
    ensures var z := ComposeStep(b1, b2, c, x1, x2).value;
            var n := Min(x1.chars, x2.chars);
            && z.state.pos2 == c.pos2
            && (x1.opcode == Keep ==> z.state.pos1 == c.pos1 && z.state.bank == c.bank)
            && (x1.opcode == Insert ==> 0 <= c.pos1 && c.pos1 + n <= |b1| && z.state.pos1 == c.pos1 + n
                                        && z.state.bank == c.bank + (if x2.opcode == Keep then b1[c.pos1..c.pos1 + n] else ""))
  {
    SliceTable(x1, x2, c.pool);
    if x1.opcode == Insert && x2.opcode == Delete {
      assert c.bank + "" == c.bank;
    }
  }

  /** An insert or keep of the first changeset against a delete or keep of
      the second: the shorter is used up, and the stretch both cover is
      dropped, inserted, deleted or kept as the table of `slicerZipperFunc`
      says. */
  lemma {:induction false} StepGeneral(b1: string, b2: string, c: Composing, x1: Op, x2: Op,
                                       rest1: seq<Op>, rest2: seq<Op>, u: string, v: string, w: string)
    returns (u2: string, v2: string, w2: string)
    requires Pending(b1, b2, c, x1, x2, rest1, rest2, u, v, w)
    requires x1.opcode in {Insert, Keep} && x2.opcode in {Delete, Keep}
    requires ComposeStep(b1, b2, c, x1, x2).Ok?
    ensures Stepped(b1, b2, c, ComposeStep(b1, b2, c, x1, x2).value, rest1, rest2, u, w, u2, v2, w2)
  {
    hide Sem, Front, ComposeStep, Slice, Pending, Stepped, Writes;
    PendingIs(b1, b2, c, x1, x2, rest1, rest2, u, v, w);
    var g1, g2 := b1[c.pos1..], b2[c.pos2..];
    var m, k := x1.chars, x2.chars;
    var z := ComposeStep(b1, b2, c, x1, x2).value;
    SliceTable(x1, x2, c.pool);
    SliceConsumes(x1, x2, c.pool);
    ComposeStepGeneral(b1, b2, c, x1, x2);
    var n: nat := Min(m, k);
    var h1: string;
    if m <= k {
      h1, u2 := FirstAfter(g1, u, x1, z.op1, rest1, v, n);
      w2 := SecondAfter(g2, v, x2, z.op2, rest2, w, n);
    } else {
      w2 := SecondAfter(g2, v, x2, z.op2, rest2, w, n);
      h1, u2 := FirstAfter(g1, u, x1, z.op1, rest1, v, n);
    }
    v2 := v[n..];
    assert z.out.chars == n && z.out.lines == Count(v[..n], '\n');
    if x1.opcode == Insert {
      StepGeneralInsert(b1, b2, c, x1, x2, z, rest1, rest2, u, w, v, w2, n);
    } else {
      StepGeneralKeep(b1, b2, c, x1, x2, z, rest1, rest2, u, w, v, w2, n);
    }
  }

  /** `StepGeneral` for an insert of the first changeset, once both ops
      are read past the `n` characters they share. */
  lemma {:induction false} StepGeneralInsert(b1: string, b2: string, c: Composing, x1: Op, x2: Op, z: Zipped<Composing>,
                                             rest1: seq<Op>, rest2: seq<Op>, u: string, w: string, v: string, w2: string, n: nat)
    requires x1.opcode == Insert && x2.opcode in {Delete, Keep}
    requires 0 <= c.pos1 && c.pos1 + n <= |b1| && z.state.pos1 == c.pos1 + n && 0 <= c.pos2 == z.state.pos2 <= |b2|
    requires z.state.bank == c.bank + (if x2.opcode == Keep then b1[c.pos1..c.pos1 + n] else "")
    requires n <= |v| && b1[c.pos1..][..n] == v[..n]
    requires z.out.opcode == Meet(x1.opcode, x2.opcode) && z.out.chars == n && z.out.lines == Count(v[..n], '\n')
    requires w == (if x2.opcode == Keep then v[..n] else "") + w2
    requires (z.op1.opcode == Null || Parsed(z.op1)) && (z.op2.opcode == Null || Parsed(z.op2))
    requires Sem(b1[c.pos1..][n..], u, Emit(z.op1) + rest1) == Ok(v[n..])
    requires Sem(b2[c.pos2..], v[n..], Emit(z.op2) + rest2) == Ok(w2)
    ensures Stepped(b1, b2, c, z, rest1, rest2, u, w, u, v[n..], w2)
  {
    assert b1[c.pos1..c.pos1 + n] == b1[c.pos1..][..n] && b1[c.pos1 + n..] == b1[c.pos1..][n..];
    var piece := if x2.opcode == Keep then v[..n] else "";
    if x2.opcode == Delete {
      assert w == "" + w2 == w2;
      WritesNothing(z.out, u, w);
    } else {
      WritesInsert(z.out, v[..n], u, w2);
    }
    assert c.bank + "" == c.bank;
    SteppedIntro(b1, b2, c, z, rest1, rest2, u, w, u, v[n..], w2, piece);
  }

  /** `StepGeneral` for a keep of the first changeset, once both ops are
      read past the `n` characters they share. */
  lemma {:induction false} StepGeneralKeep(b1: string, b2: string, c: Composing, x1: Op, x2: Op, z: Zipped<Composing>,
                                           rest1: seq<Op>, rest2: seq<Op>, u: string, w: string, v: string, w2: string, n: nat)
    requires x1.opcode == Keep && x2.opcode in {Delete, Keep}
    requires 0 <= c.pos1 == z.state.pos1 <= |b1| && 0 <= c.pos2 == z.state.pos2 <= |b2| && z.state.bank == c.bank
    requires n <= |v| && n <= |u| && u[..n] == v[..n]
    requires z.out.opcode == Meet(x1.opcode, x2.opcode) && z.out.chars == n && z.out.lines == Count(v[..n], '\n')
    requires w == (if x2.opcode == Keep then v[..n] else "") + w2
    requires (z.op1.opcode == Null || Parsed(z.op1)) && (z.op2.opcode == Null || Parsed(z.op2))
    requires Sem(b1[c.pos1..], u[n..], Emit(z.op1) + rest1) == Ok(v[n..])
    requires Sem(b2[c.pos2..], v[n..], Emit(z.op2) + rest2) == Ok(w2)
    ensures Stepped(b1, b2, c, z, rest1, rest2, u, w, u[n..], v[n..], w2)
  {
    if x2.opcode == Delete {
      assert w == "" + w2 == w2;
      WritesDelete(z.out, u, w);
    } else {
      WritesKeep(z.out, u, w2);
    }
    assert c.bank + "" == c.bank;
    SteppedIntro(b1, b2, c, z, rest1, rest2, u, w, u[n..], v[n..], w2, "");
  }

  /** One call of the callback of `compose`, whatever the two ops are. */
  lemma {:induction false} ComposeStepSem(b1: string, b2: string, c: Composing, x1: Op, x2: Op,
                                          rest1: seq<Op>, rest2: seq<Op>, u: string, v: string, w: string)
    returns (u2: string, v2: string, w2: string)
    requires Pending(b1, b2, c, x1, x2, rest1, rest2, u, v, w)
    requires Live(x1) + Live(x2) > 0
    requires x1.opcode == Null ==> rest1 == []
    requires x2.opcode == Null ==> rest2 == []
    requires ComposeStep(b1, b2, c, x1, x2).Ok?
    ensures Stepped(b1, b2, c, ComposeStep(b1, b2, c, x1, x2).value, rest1, rest2, u, w, u2, v2, w2)
  {
    PendingIs(b1, b2, c, x1, x2, rest1, rest2, u, v, w);
    if x1.opcode == Null {
      u2, v2, w2 := StepFirstDone(b1, b2, c, x1, x2, rest1, rest2, u, v, w);
    } else if x1.opcode == Delete {
      u2, v2, w2 := StepFirstDeletes(b1, b2, c, x1, x2, rest1, rest2, u, v, w);
    } else if x2.opcode == Null {
      u2, v2, w2 := StepSecondDone(b1, b2, c, x1, x2, rest1, rest2, u, v, w);
    } else if x2.opcode == Insert {
      u2, v2, w2 := StepSecondInserts(b1, b2, c, x1, x2, rest1, rest2, u, v, w);
    } else {
      u2, v2, w2 := StepGeneral(b1, b2, c, x1, x2, rest1, rest2, u, v, w);
    }
  }

  /** Fetching the next op changes nothing about what is left to read. */
  lemma {:induction false} FetchKeeps(op: Op, st: Stream)
    requires AllParsed(st.ops) && !st.fault && (op.opcode == Null || Parsed(op))
    ensures Fetch(op, st).Ok?
    ensures var x := Fetch(op, st).value;
            && Emit(x.0) + x.1.ops == Emit(op) + st.ops
            && (x.0.opcode == Null || Parsed(x.0))
            && (x.0.opcode == Null ==> x.1.ops == [])
            && AllParsed(x.1.ops) && !x.1.fault
            && 2 * |x.1.ops| + Live(x.0) <= 2 * |st.ops| + Live(op)
  {
    var x := Fetch(op, st).value;
    if op.opcode == Null && st.ops != [] {
      assert x.0 == st.ops[0] && Parsed(x.0);
      assert Emit(op) + st.ops == st.ops == [x.0] + x.1.ops;
    }
  }

  /** The written op in front of what the rest of the zip writes. */
  lemma {:induction false} ComposeSemGlue(c: Composing, z: Zipped<Composing>, fin: Composing, outs: seq<Op>,
                                          u: string, u2: string, w: string, w2: string)
    requires (z.out.opcode == Null || Parsed(z.out)) && c.bank <= z.state.bank
    requires Writes(z.out, z.state.bank[|c.bank|..], u, u2, w, w2)
    requires z.state.bank <= fin.bank && AllParsed(outs) && Sem(fin.bank[|z.state.bank|..], u2, outs) == Ok(w2)
    ensures c.bank <= fin.bank && AllParsed(Emit(z.out) + outs)
    ensures Sem(fin.bank[|c.bank|..], u, Emit(z.out) + outs) == Ok(w)
  {
    var piece := z.state.bank[|c.bank|..];
    var g := fin.bank[|c.bank|..];
    assert piece <= g && g[|piece|..] == fin.bank[|z.state.bank|..];
    WritesSem(g, piece, z.out, outs, u, u2, w, w2);
    assert AllParsed(Emit(z.out));
    AllParsedAppend(Emit(z.out), outs);
  }

  /** The zip of `compose` once both changesets are used up: nothing is
      written, and the text is what both leave. */
  lemma {:induction false} ComposeSemDone(b1: string, b2: string, c: Composing, op1: Op, op2: Op,
                                          u: string, v: string, w: string)
    requires Pending(b1, b2, c, op1, op2, [], [], u, v, w)
    requires op1.opcode == Null && op2.opcode == Null
    ensures c.bank <= c.bank && Sem(c.bank[|c.bank|..], u, []) == Ok(w)
  {
    PendingIs(b1, b2, c, op1, op2, [], [], u, v, w);
    SemSkip(b1[c.pos1..], u, op1, []);
    SemSkip(b2[c.pos2..], v, op2, []);
    SemNone(b1[c.pos1..], u);
    SemNone(b2[c.pos2..], v);
    assert c.bank[|c.bank|..] == "";
    SemNone("", u);
  }

  /** The whole zip of `compose`: the ops it writes, read from the front
      with the characters it appends to the new bank, turn `u` into what
      the first changeset and then the second make of it. */
  lemma {:induction false} ComposeSem(b1: string, b2: string, c: Composing, op1: Op, op2: Op,
                                      st1: Stream, st2: Stream, u: string, v: string, w: string)
    requires Progresses(ComposeFn(b1, b2))
    requires AllParsed(st1.ops) && AllParsed(st2.ops) && !st1.fault && !st2.fault
    requires Pending(b1, b2, c, op1, op2, st1.ops, st2.ops, u, v, w)
    requires ZipFrom(ComposeFn(b1, b2), c, op1, op2, st1, st2).Ok?
    ensures var r := ZipFrom(ComposeFn(b1, b2), c, op1, op2, st1, st2).value;
            && c.bank <= r.0.bank && AllParsed(r.1)
            && Sem(r.0.bank[|c.bank|..], u, r.1) == Ok(w)
    decreases 2 * |st1.ops| + 2 * |st2.ops| + Live(op1) + Live(op2)
  {
    var f := ComposeFn(b1, b2);
    var r := ZipFrom(f, c, op1, op2, st1, st2).value;
    ZipFromCases(f, c, op1, op2, st1, st2);
    if op1.opcode == Null && st1.ops == [] && op2.opcode == Null && st2.ops == [] {
      assert r == (c, []);
      ComposeSemDone(b1, b2, c, op1, op2, u, v, w);
    } else {
      PendingIs(b1, b2, c, op1, op2, st1.ops, st2.ops, u, v, w);
      FetchKeeps(op1, st1);
      FetchKeeps(op2, st2);
      var x1 := Fetch(op1, st1).value;
      var x2 := Fetch(op2, st2).value;
      assert f(c, x1.0, x2.0) == ComposeStep(b1, b2, c, x1.0, x2.0);
      var z := ComposeStep(b1, b2, c, x1.0, x2.0).value;
      var r2 := ZipFrom(f, z.state, z.op1, z.op2, x1.1, x2.1);
      assert ZipFrom(f, c, op1, op2, st1, st2) == Prefixed(Emit(z.out), r2);
      hide ZipFrom, ComposeStep, Fetch, Sem, Stepped, Prefixed;
      assert Pending(b1, b2, c, x1.0, x2.0, x1.1.ops, x2.1.ops, u, v, w);
      var u2, v2, w2 := ComposeStepSem(b1, b2, c, x1.0, x2.0, x1.1.ops, x2.1.ops, u, v, w);
      SteppedIs(b1, b2, c, z, x1.1.ops, x2.1.ops, u, w, u2, v2, w2);
      ProgressAt(f, c, x1.0, x2.0);
      assert f(c, x1.0, x2.0).value == z;
      assert r2.Ok? by {
        PrefixedErr(Emit(z.out), r2);
      }
      ComposeSem(b1, b2, z.state, z.op1, z.op2, x1.1, x2.1, u2, v2, w2);
      PrefixedOk(Emit(z.out), r2.value.0, r2.value.1);
      assert r == (r2.value.0, Emit(z.out) + r2.value.1);
      ComposeSemGlue(c, z, r2.value.0, r2.value.1, u, u2, w, w2);
    }
  }

  /** The zip of `compose` over two op lists that apply one after the
      other writes a changeset that applies in one go. */
  lemma {:induction false} ComposedRun(b1: string, b2: string, p: Pool, st1: Stream, st2: Stream,
                                       text: string, v: string, w: string, newLen: int)
    requires Progresses(ComposeFn(b1, b2))
    requires AllParsed(st1.ops) && AllParsed(st2.ops) && !st1.fault && !st2.fault
    requires Sem(b1, text, st1.ops) == Ok(v) && Sem(b2, v, st2.ops) == Ok(w)
    requires ZipFrom(ComposeFn(b1, b2), Composing(p, 0, 0, ""), NewOp(Null), NewOp(Null), st1, st2).Ok?
    ensures var z := ZipFrom(ComposeFn(b1, b2), Composing(p, 0, 0, ""), NewOp(Null), NewOp(Null), st1, st2).value;
            ApplyToTextSpec(Pack(|text|, newLen, ZipText(z.1), z.0.bank), text) == Ok(w)
  {
    var init := Composing(p, 0, 0, "");
    var none := NewOp(Null);
    var z := ZipFrom(ComposeFn(b1, b2), init, none, none, st1, st2).value;
    assert b1[0..] == b1 && b2[0..] == b2 && Emit(none) + st1.ops == st1.ops && Emit(none) + st2.ops == st2.ops;
    assert Pending(b1, b2, init, none, none, st1.ops, st2.ops, text, v, w);
    ComposeSem(b1, b2, init, none, none, st1, st2, text, v, w);
    assert z.0.bank[0..] == z.0.bank;
    assert AppliedInit.bankPos == 0 && AppliedInit.strPos == 0 && AppliedInit.out == "";
    assert text[0..] == text;
    hide ZipFrom, Sem, ApplyToTextSpec, Pending;
    RunSem(z.0.bank, text, AppliedInit, z.1);
    var b := Run(z.0.bank, text, AppliedInit, z.1).value;
    assert b.out + text[b.strPos..] == "" + w == w;
    ZipTextApplies(z.0.bank, text, z.1, newLen, b);
  }

  /** `compose(cs1, cs2)` applied to a text gives what `cs1` and then
      `cs2` give, whenever both apply and the composition succeeds. */
  lemma {:induction false} ComposeApplies(cs1: string, cs2: string, p: Pool, text: string)
    requires ComposeSpec(cs1, cs2, p).Ok?
    requires ApplyToTextSpec(cs1, text).Ok?
    requires ApplyToTextSpec(cs2, ApplyToTextSpec(cs1, text).value).Ok?
    ensures ApplyToTextSpec(ComposeSpec(cs1, cs2, p).value.0, text)
            == ApplyToTextSpec(cs2, ApplyToTextSpec(cs1, text).value)
  {
    var c1, c2 := Unpack(cs1).value, Unpack(cs2).value;
    var v := ApplyToTextSpec(cs1, text).value;
    var w := ApplyToTextSpec(cs2, v).value;
    ApplyToTextSpecCases(cs1, text);
    ApplyToTextSpecCases(cs2, v);
    var st1, st2 := ParseOps(c1.ops), ParseOps(c2.ops);
    ApplyToTextSem(cs1, text);
    ApplyToTextSem(cs2, v);
    var b1, b2 := c1.charBank, c2.charBank;
    ComposeFnProgresses(b1, b2);
    var init := Composing(p, 0, 0, "");
    assert ApplyZipSpec(ComposeFn(b1, b2), init, c1.ops, c2.ops).Ok?;
    ApplyZipSpecRun(ComposeFn(b1, b2), init, c1.ops, c2.ops);
    var z := ZipFrom(ComposeFn(b1, b2), init, NewOp(Null), NewOp(Null), st1, st2).value;
    assert ComposeSpec(cs1, cs2, p).value.0 == Pack(c1.oldLen, c2.newLen, ZipText(z.1), z.0.bank);
    ComposedRun(b1, b2, p, st1, st2, text, v, w, c2.newLen);
  }
}
