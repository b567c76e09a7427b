/** `mutateTextLines` (Changeset.js lines 1101-1119) against `applyToText`
    (lines 1057-1093): run over the lines of a text, the mutator leaves the
    lines of the text `applyToText` returns, for changesets whose
    multi-line keeps and deletes end at a newline and leave the last
    character of the text to the final implicit keep. */
module MutateApply {
  import opened Results
  import opened Ops
  import opened Texts
  import opened Codec
  import opened OpIters
  import opened Cursors
  import opened Assemblers
  import opened Apply
  import opened TextLines
  import M = Mutators

  // ---------------------------------------------------------------- lines

  /** The lines of `d` from line `c` on are lines of a text: each is
      non-empty with a newline at most at its end, and all but the last end
      with one. */
  ghost predicate Lined(d: seq<string>, c: nat) {
    forall i :: c <= i < |d| ==> M.LinePiece(d[i]) && (i < |d| - 1 ==> d[i][|d[i]| - 1] == '\n')
  }

  lemma JoinEmpty()
    ensures Join([]) == ""
  {
  }

  lemma {:induction false} JoinSplit(d: seq<string>, c: nat)
    requires c < |d|
    ensures Join(d) == Join(d[..c]) + d[c] + Join(d[c + 1..])
  {
    assert d == d[..c] + d[c..];
    assert d[c..] == [d[c]] + d[c + 1..];
    M.JoinAppend(d[..c], d[c..]);
    M.JoinCons(d[c], d[c + 1..]);
  }

  /** A line of a text holds one newline when it ends with one, and none
      before its last character. */
  lemma {:induction false} LineNewlines(x: string)
    requires M.LinePiece(x)
    ensures Count(x[..|x| - 1], '\n') == 0
    ensures Count(x, '\n') == if x[|x| - 1] == '\n' then 1 else 0
  {
    var f := x[..|x| - 1];
    CountNone(f, '\n');
    assert forall j :: 0 <= j < |f| ==> f[j] == x[j];
    assert x == f + [x[|x| - 1]];
    CountAppend(f, [x[|x| - 1]], '\n');
    if x[|x| - 1] == '\n' {
      CountOne('\n');
    } else {
      assert [x[|x| - 1]][..0] == [];
    }
  }

  lemma {:induction false} LinedAt(d: seq<string>, c: nat, i: nat)
    requires Lined(d, c) && c <= i < |d|
    ensures M.LinePiece(d[i]) && (i < |d| - 1 ==> d[i][|d[i]| - 1] == '\n') && Lined(d, i)
  {
  }

  /** The rest of a line from a column before its end is again a line. */
  lemma {:induction false} LineFrom(s: string, k: nat)
    requires M.LinePiece(s) && k < |s|
    ensures M.LinePiece(s[k..]) && s[k..][|s[k..]| - 1] == s[|s| - 1]
  {
    forall j | 0 <= j < |s[k..]| - 1 ensures s[k..][j] != '\n' {
      assert s[k..][j] == s[k + j];
    }
  }

  /** What follows a cursor at column `col` of line `c`, when the lines from
      there on are lines of a text: a stretch without newlines, shorter
      than all of it, lies inside the cursor line. */
  lemma {:induction false} WithinLine(d: seq<string>, c: nat, col: nat, rest: string, n: nat)
    requires Lined(d, c) && c < |d| && col < |d[c]|
    requires rest == d[c][col..] + Join(d[c + 1..])
    requires n < |rest| && Count(rest[..n], '\n') == 0
    ensures col + n < |d[c]| && rest[..n] == d[c][col..col + n]
    ensures rest[n..] == d[c][col + n..] + Join(d[c + 1..])
  {
    var x := d[c][col..];
    if n >= |x| {
      if c < |d| - 1 {
        LinedAt(d, c, c);
        var p := rest[..n];
        assert p[|x| - 1] == x[|x| - 1];
        CountNone(p, '\n');
      }
      assert false;
    }
    assert rest[..n] == x[..n];
    assert rest[n..] == x[n..] + Join(d[c + 1..]);
  }

  /** A stretch that ends with a newline, shorter than all that follows the
      cursor, covers the rest of the cursor line, which is not the last. */
  lemma {:induction false} PastFirstLine(d: seq<string>, c: nat, col: nat, rest: string, n: nat)
    requires Lined(d, c) && c < |d| && col < |d[c]|
    requires rest == d[c][col..] + Join(d[c + 1..])
    requires 0 < n < |rest| && rest[n - 1] == '\n'
    ensures c + 1 < |d| && |d[c]| - col <= n
    ensures rest[..n] == d[c][col..] + rest[|d[c]| - col..n]
    ensures Count(rest[..n], '\n') == 1 + Count(rest[|d[c]| - col..n], '\n')
    ensures rest[|d[c]| - col..] == Join(d[c + 1..])
  {
    var x := d[c][col..];
    LinedAt(d, c, c);
    LineFrom(d[c], col);
    if n < |x| || c == |d| - 1 {
      assert false;
    }
    LineNewlines(x);
    var q := rest[|x|..n];
    assert rest[..n] == x + q;
    CountAppend(x, q, '\n');
  }

  /** A stretch that ends with its `L`-th newline, shorter than all that
      follows the cursor, is the rest of the cursor line and the `L - 1`
      lines after it. */
  lemma {:induction false} AcrossLines(d: seq<string>, c: nat, col: nat, rest: string, n: nat, L: nat)
    requires Lined(d, c) && c < |d| && col < |d[c]|
    requires rest == d[c][col..] + Join(d[c + 1..])
    requires 0 < n < |rest| && L > 0 && Count(rest[..n], '\n') == L && rest[n - 1] == '\n'
    ensures c + L < |d|
    ensures rest[..n] == d[c][col..] + Join(d[c + 1..c + L])
    ensures rest[n..] == Join(d[c + L..])
    decreases L
  {
    hide *;
    PastFirstLine(d, c, col, rest, n);
    var x := d[c][col..];
    var q := rest[|x|..n];
    var tail := Join(d[c + 1..]);
    assert rest[n..] == tail[n - |x|..];
    if L == 1 {
      if q != [] {
        assert q[|q| - 1] == rest[n - 1];
        CountNone(q, '\n');
        assert false;
      }
      assert d[c + 1..c + 1] == [];
      JoinEmpty();
    } else {
      LinedAt(d, c, c + 1);
      assert d[c + 1..] == [d[c + 1]] + d[c + 2..];
      M.JoinCons(d[c + 1], d[c + 2..]);
      assert d[c + 1][0..] == d[c + 1];
      assert q == tail[..n - |x|];
      AcrossLines(d, c + 1, 0, tail, n - |x|, L - 1);
      assert d[c + 1..c + L] == [d[c + 1]] + d[c + 2..c + L];
      M.JoinCons(d[c + 1], d[c + 2..c + L]);
    }
  }

  /** Lines from `k` on that match, past one rewritten line, the lines of a
      text from a line `k` on are again lines of a text. */
  lemma {:induction false} LinedGlue(d: seq<string>, k: nat, e: seq<string>, c: nat)
    requires Lined(d, k) && k < |d| && c < |e| && e[c + 1..] == d[k + 1..]
    requires M.LinePiece(e[c]) && e[c][|e[c]| - 1] == d[k][|d[k]| - 1]
    ensures Lined(e, c)
  {
    forall i | c <= i < |e| ensures M.LinePiece(e[i]) && (i < |e| - 1 ==> e[i][|e[i]| - 1] == '\n') {
      if i > c {
        assert e[i] == e[c + 1..][i - c - 1] == d[k + 1..][i - c - 1] == d[k + i - c];
        LinedAt(d, k, k + i - c);
      } else {
        LinedAt(d, k, k);
      }
    }
  }

  // ---------------------------------------------------------------- cursor

  /** Line `c`, column `col` of the document `d` is a cursor that splits
      it into `out` before and `rest` after, with the lines from the cursor
      on shaped as lines of a text and the cursor before the last character
      of its line. */
  ghost predicate Cut(d: seq<string>, c: nat, col: nat, out: string, rest: string) {
    && c < |d| && col < |d[c]| && Lined(d, c)
    && Join(d[..c]) + d[c][..col] == out
    && d[c][col..] + Join(d[c + 1..]) == rest
  }

  /** A keep without newlines moves the cursor along its line. */
  lemma {:induction false} CutKeepWithin(d: seq<string>, c: nat, col: nat, out: string, rest: string, n: nat)
    requires Cut(d, c, col, out, rest) && n < |rest| && Count(rest[..n], '\n') == 0
    ensures col + n < |d[c]| && Cut(d, c, col + n, out + rest[..n], rest[n..])
  {
    WithinLine(d, c, col, rest, n);
    assert d[c][..col + n] == d[c][..col] + d[c][col..col + n];
    LinedAt(d, c, c);
  }

  /** A cursor at the start of line `k`: what the lines before it join to
      is before, line `k` and what follows is after. */
  lemma {:induction false} CutAtStart(d: seq<string>, k: nat, out: string, rest: string)
    requires k < |d| && M.LinePiece(d[k]) && Lined(d, k)
    requires Join(d[..k]) == out && d[k] + Join(d[k + 1..]) == rest
    ensures Cut(d, k, 0, out, rest)
  {
    assert d[k][..0] == [] && d[k][0..] == d[k];
  }

  /** Joining the lines up to `k` past a cursor in line `c` gives what is
      before the cursor followed by the rest of line `c` and the lines
      after it up to `k`. */
  lemma {:induction false} JoinThrough(d: seq<string>, c: nat, col: nat, out: string, a: string, k: nat)
    requires c < k <= |d| && col <= |d[c]|
    requires Join(d[..c]) + d[c][..col] == out && a == d[c][col..] + Join(d[c + 1..k])
    ensures Join(d[..k]) == out + a
  {
    var h := d[..k];
    JoinSplit(h, c);
    assert h[..c] == d[..c] && h[c] == d[c] && h[c + 1..] == d[c + 1..k];
    assert d[c] == d[c][..col] + d[c][col..];
  }

  lemma {:induction false} JoinHead(d: seq<string>, k: nat)
    requires k < |d|
    ensures Join(d[k..]) == d[k] + Join(d[k + 1..])
  {
    assert d[k..] == [d[k]] + d[k + 1..];
    M.JoinCons(d[k], d[k + 1..]);
  }

  /** A keep ending with its `L`-th newline moves the cursor to the start
      of line `c + L`. */
  lemma {:induction false} CutKeepAcross(d: seq<string>, c: nat, col: nat, out: string, rest: string, n: nat, L: nat)
    requires Cut(d, c, col, out, rest)
    requires 0 < n < |rest| && L > 0 && Count(rest[..n], '\n') == L && rest[n - 1] == '\n'
    ensures c + L < |d| && Cut(d, c + L, 0, out + rest[..n], rest[n..])
  {
    hide Count, Join;
    AcrossLines(d, c, col, rest, n, L);
    LinedAt(d, c, c + L);
    JoinThrough(d, c, col, out, rest[..n], c + L);
    JoinHead(d, c + L);
    CutAtStart(d, c + L, out + rest[..n], rest[n..]);
  }

  /** A delete without newlines takes its span out of the cursor line. */
  lemma {:induction false} CutDeleteWithin(d: seq<string>, c: nat, col: nat, out: string, rest: string, n: nat)
    requires Cut(d, c, col, out, rest) && n < |rest| && Count(rest[..n], '\n') == 0
    ensures col + n < |d[c]|
    ensures Cut(d[c := Substring(d[c], 0, col) + M.From(d[c], col + n)], c, col, out, rest[n..])
  {
    WithinLine(d, c, col, rest, n);
    var x := d[c];
    var y := x[..col] + x[col + n..];
    assert Substring(x, 0, col) + M.From(x, col + n) == y;
    var e := d[c := y];
    LinedAt(d, c, c);
    assert M.LinePiece(y) by {
      forall j | 0 <= j < |y| - 1 ensures y[j] != '\n' {
        if j < col {
          assert y[j] == x[j];
        } else {
          assert y[j] == x[j + n];
        }
      }
    }
    assert y[|y| - 1] == x[|x| - 1];
    assert e[c + 1..] == d[c + 1..] && e[..c] == d[..c];
    LinedGlue(d, c, e, c);
    assert e[c][..col] == x[..col] && e[c][col..] == x[col + n..];
  }

  /** A delete of `L` whole lines from the start of the cursor line takes
      them out of the document. */
  lemma {:induction false} CutDeleteWhole(d: seq<string>, c: nat, out: string, rest: string, n: nat, L: nat)
    requires Cut(d, c, 0, out, rest)
    requires 0 < n < |rest| && L > 0 && Count(rest[..n], '\n') == L && rest[n - 1] == '\n'
    ensures c + L < |d| && Cut(d[..c] + d[c + L..], c, 0, out, rest[n..])
  {
    AcrossLines(d, c, 0, rest, n, L);
    var e := d[..c] + d[c + L..];
    assert e[..c] == d[..c] && e[c] == d[c + L] && e[c + 1..] == d[c + L + 1..];
    LinedAt(d, c, c + L);
    LinedGlue(d, c + L, e, c);
    assert d[c + L..] == [d[c + L]] + d[c + L + 1..];
    M.JoinCons(d[c + L], d[c + L + 1..]);
    assert d[c][..0] == [] && e[c][..0] == [] && e[c][0..] == e[c];
  }

  /** A delete from inside the cursor line to the end of line `c + L - 1`
      joins the head of the cursor line to line `c + L`. */
  lemma {:induction false} CutDeleteJoined(d: seq<string>, c: nat, col: nat, out: string, rest: string, n: nat, L: nat)
    requires Cut(d, c, col, out, rest)
    requires 0 < n < |rest| && L > 0 && Count(rest[..n], '\n') == L && rest[n - 1] == '\n'
    ensures c + L < |d| && Cut(d[..c] + [M.JoinedLine(d, c, col, L)] + d[c + L + 1..], c, col, out, rest[n..])
  {
    hide Count;
    AcrossLines(d, c, col, rest, n, L);
    var x := d[c];
    var y := x[..col] + d[c + L];
    assert M.JoinedLine(d, c, col, L) == y;
    var e := d[..c] + [y] + d[c + L + 1..];
    LinedAt(d, c, c);
    LinedAt(d, c, c + L);
    assert M.LinePiece(y) by {
      forall j | 0 <= j < |y| - 1 ensures y[j] != '\n' {
        if j < col {
          assert y[j] == x[j];
        } else {
          assert y[j] == d[c + L][j - col];
        }
      }
    }
    assert e[..c] == d[..c] && e[c] == y && e[c + 1..] == d[c + L + 1..];
    LinedGlue(d, c + L, e, c);
    assert d[c + L..] == [d[c + L]] + d[c + L + 1..];
    M.JoinCons(d[c + L], d[c + L + 1..]);
    assert y[..col] == x[..col] && y[col..] == d[c + L];
  }

  /** An insert without newlines goes into the cursor line, and the cursor
      moves past it. */
  lemma {:induction false} CutInsertWithin(d: seq<string>, c: nat, col: nat, out: string, rest: string, t: string)
    requires Cut(d, c, col, out, rest) && Count(t, '\n') == 0
    ensures Cut(d[c := Substring(d[c], 0, col) + t + M.From(d[c], col)], c, col + |t|, out + t, rest)
  {
    var x := d[c];
    var y := x[..col] + t + x[col..];
    assert Substring(x, 0, col) + t + M.From(x, col) == y;
    var e := d[c := y];
    LinedAt(d, c, c);
    CountNone(t, '\n');
    assert M.LinePiece(y) by {
      forall j | 0 <= j < |y| - 1 ensures y[j] != '\n' {
        if j < col {
          assert y[j] == x[j];
        } else if j < col + |t| {
          assert y[j] == t[j - col];
        } else {
          assert y[j] == x[j - |t|];
        }
      }
    }
    assert y[|y| - 1] == x[|x| - 1];
    assert e[c + 1..] == d[c + 1..] && e[..c] == d[..c];
    LinedGlue(d, c, e, c);
    assert e[c][..col + |t|] == x[..col] + t && e[c][col + |t|..] == x[col..];
  }

  /** An insert with newlines at the start of the cursor line puts the
      lines of the text before it. */
  lemma {:induction false} CutInsertStart(d: seq<string>, c: nat, out: string, rest: string, t: string)
    requires Cut(d, c, 0, out, rest) && t != []
    ensures Cut(d[..c] + M.TextLines(t) + d[c..], c + |M.TextLines(t)|, 0, out + t, rest)
  {
    var p := M.TextLines(t);
    M.TextLinesShape(t);
    var e := d[..c] + p + d[c..];
    var c2 := c + |p|;
    assert e[..c2] == d[..c] + p && e[c2] == d[c] && e[c2 + 1..] == d[c + 1..];
    M.JoinAppend(d[..c], p);
    LinedAt(d, c, c);
    LinedGlue(d, c, e, c2);
    assert d[c][..0] == [] && e[c2][..0] == [];
  }

  /** The lines before the cursor once the head of the broken line has
      taken the first piece. */
  lemma {:induction false} JoinBrokenHead(a: seq<string>, h: string, p: seq<string>)
    requires |p| >= 1
    ensures Join(a + ([h + p[0]] + p[1..])) == Join(a) + h + Join(p)
  {
    M.JoinAppend(a, [h + p[0]] + p[1..]);
    M.JoinCons(h + p[0], p[1..]);
    assert p == [p[0]] + p[1..];
    M.JoinCons(p[0], p[1..]);
  }

  /** An insert with newlines inside the cursor line breaks it around the
      lines of the text; the cursor goes to the start of its tail. */
  lemma {:induction false} CutInsertSplit(d: seq<string>, c: nat, col: nat, out: string, rest: string, t: string, e: seq<string>)
    requires Cut(d, c, col, out, rest) && t != [] && M.BrokenAt(d, c, col, M.TextLines(t), e)
    ensures Cut(e, c + |M.TextLines(t)|, 0, out + t, rest)
  {
    var p := M.TextLines(t);
    M.TextLinesShape(t);
    var x := d[c];
    assert Substring(x, 0, col) == x[..col] && M.From(x, col) == x[col..];
    assert Join(p) == t && |p| >= 1;
    assert Join(d[..c]) + x[..col] == out && x[col..] + Join(d[c + 1..]) == rest;
    LinedAt(d, c, c);
    LineFrom(x, col);
    hide Join, M.TextLines, Lined, Substring, M.From, M.BrokenAt;
    var head := x[..col] + p[0];
    assert e == d[..c] + ([head] + p[1..]) + [x[col..]] + d[c + 1..];
    var c2 := c + |p|;
    assert e[..c2] == d[..c] + ([head] + p[1..]);
    assert e[c2] == x[col..] && e[c2 + 1..] == d[c + 1..];
    JoinBrokenHead(d[..c], x[..col], p);
    LinedGlue(d, c, e, c2);
    CutAtStart(e, c2, out + t, rest);
  }

  // ---------------------------------------------------------------- window

  /** A mutator whose document is cut by its cursor into `out` and `rest`. */
  ghost predicate At(w: M.Window, out: string, rest: string) {
    M.Sound(w) && Cut(M.Doc(w), w.curLine, w.curCol, out, rest)
  }

  lemma {:induction false} SkipWithin(w: M.Window, n: nat, inc: bool, out: string, rest: string)
    requires At(w, out, rest) && 0 < n < |rest| && Count(rest[..n], '\n') == 0
    ensures M.Skip(w, n, 0, inc).Ok? && At(M.Skip(w, n, 0, inc).value, out + rest[..n], rest[n..])
  {
    hide Join, Lined, Count, Cut;
    M.SkipKeeps(w, n, 0, inc);
    CutKeepWithin(M.Doc(w), w.curLine, w.curCol, out, rest, n);
  }

  lemma {:induction false} SkipAcross(w: M.Window, n: nat, L: nat, inc: bool, out: string, rest: string)
    requires At(w, out, rest)
    requires 0 < n < |rest| && L > 0 && Count(rest[..n], '\n') == L && rest[n - 1] == '\n'
    ensures M.Skip(w, n, L, inc).Ok? && At(M.Skip(w, n, L, inc).value, out + rest[..n], rest[n..])
  {
    hide Join, Lined, Count, Cut;
    M.SkipKeeps(w, n, L, inc);
    CutKeepAcross(M.Doc(w), w.curLine, w.curCol, out, rest, n, L);
  }

  lemma {:induction false} RemoveWithin(w: M.Window, n: nat, out: string, rest: string)
    requires At(w, out, rest) && 0 < n < |rest| && Count(rest[..n], '\n') == 0
    ensures M.Remove(w, n, 0).Ok? && At(M.Remove(w, n, 0).value.1, out, rest[n..])
  {
    hide M.Remove, M.Open, M.PutCurLine, M.Spliced, Join, Lined, Count;
    M.RemoveInLine(w, n);
    CutDeleteWithin(M.Doc(w), w.curLine, w.curCol, out, rest, n);
  }

  lemma {:induction false} RemoveAcross(w: M.Window, n: nat, L: nat, out: string, rest: string)
    requires At(w, out, rest)
    requires 0 < n < |rest| && L > 0 && Count(rest[..n], '\n') == L && rest[n - 1] == '\n'
    ensures M.Remove(w, n, L).Ok? && At(M.Remove(w, n, L).value.1, out, rest[n..])
  {
    RemoveIsLines(w, n, L);
    if w.curCol == 0 {
      RemoveWhole(w, n, L, out, rest);
    } else {
      RemoveJoined(w, n, L, out, rest);
    }
  }

  lemma {:induction false} RemoveIsLines(w: M.Window, n: nat, L: nat)
    requires M.Coherent(w) && n > 0 && L > 0
    ensures M.Remove(w, n, L) == M.RemoveLines(w, L)
  {
  }

  lemma {:induction false} RemoveWhole(w: M.Window, n: nat, L: nat, out: string, rest: string)
    requires At(w, out, rest) && w.curCol == 0
    requires 0 < n < |rest| && L > 0 && Count(rest[..n], '\n') == L && rest[n - 1] == '\n'
    ensures M.RemoveLines(w, L).Ok? && At(M.RemoveLines(w, L).value.1, out, rest[n..])
  {
    hide M.RemoveLines, M.Open, M.PutCurLine, M.Spliced, Join, Lined, Count;
    M.RemoveWholeLines(w, L);
    CutDeleteWhole(M.Doc(w), w.curLine, out, rest, n, L);
  }

  lemma {:induction false} RemoveJoined(w: M.Window, n: nat, L: nat, out: string, rest: string)
    requires At(w, out, rest) && w.curCol > 0
    requires 0 < n < |rest| && L > 0 && Count(rest[..n], '\n') == L && rest[n - 1] == '\n'
    ensures M.RemoveLines(w, L).Ok? && At(M.RemoveLines(w, L).value.1, out, rest[n..])
  {
    hide M.RemoveLines, M.Open, M.PutCurLine, M.Spliced, Join, Lined, Count;
    M.RemoveJoinedLines(w, L);
    CutDeleteJoined(M.Doc(w), w.curLine, w.curCol, out, rest, n, L);
  }

  lemma {:induction false} InsertWithin(w: M.Window, t: string, out: string, rest: string)
    requires At(w, out, rest) && t != [] && Count(t, '\n') == 0
    ensures M.Insert(w, t, 0).Ok? && At(M.Insert(w, t, 0).value, out + t, rest)
  {
    M.InsertInLine(w, t);
    CutInsertWithin(M.Doc(w), w.curLine, w.curCol, out, rest, t);
  }

  lemma {:induction false} InsertAcross(w: M.Window, t: string, L: nat, out: string, rest: string)
    requires At(w, out, rest) && t != [] && L > 0
    ensures M.Insert(w, t, L).Ok? && At(M.Insert(w, t, L).value, out + t, rest)
  {
    var d, c, col := M.Doc(w), w.curLine, w.curCol;
    if col == 0 {
      M.InsertLinesAtStart(w, t, L);
      CutInsertStart(d, c, out, rest, t);
    } else {
      M.InsertLinesSplit(w, t, L);
      CutInsertSplit(d, c, col, out, rest, t, M.Doc(M.Insert(w, t, L).value));
    }
  }

  // ---------------------------------------------------------------- loop

  /** A keep or delete starting at `pos` ends before the last character of
      the text, and, when it spans newlines, just after one. */
  ghost predicate Aligned(text: string, pos: int, o: Op) {
    o.opcode in {Keep, Delete} ==>
      var end := pos + o.chars;
      end < |text| && (o.lines > 0 ==> 0 < end && text[end - 1] == '\n')
  }

  /** Every keep and delete of `ops` is aligned where it starts, after the
      text the ops before it keep and delete. */
  ghost predicate LineAligned(text: string, ops: seq<Op>) {
    forall k :: 0 <= k < |ops| ==> Aligned(text, Total(ops[..k], {Keep, Delete}), ops[k])
  }

  /** The two loops in step: the mutator has read as much of the char bank
      as `applyToText`, and its cursor cuts its document into the output so
      far and the text not yet consumed. */
  ghost predicate Tracks(text: string, a: Applied, m: Mutation) {
    && m.bankPos == a.bankPos
    && 0 <= a.strPos < |text|
    && At(m.w, a.out, text[a.strPos..])
  }

  /** The lines of a non-empty text, with the cursor at the start. */
  lemma {:induction false} CutStart(text: string, d: seq<string>)
    requires text != [] && M.Shaped(text, d)
    ensures Cut(d, 0, 0, [], text)
  {
    assert Lined(d, 0);
    assert d[..0] == [] && d[0][..0] == [] && d[0][0..] == d[0];
    JoinSplit(d, 0);
  }

  lemma {:induction false} TracksInitial(text: string)
    requires text != []
    ensures Tracks(text, AppliedInit, Initial(M.TextLines(text)))
  {
    var d := M.TextLines(text);
    M.TextLinesShape(text);
    CutStart(text, d);
    assert Initial(d).w.curCol == 0 && Initial(d).bankPos == 0;
    assert text[0..] == text;
  }

  /** One op of each loop keeps them in step. */
  lemma {:induction false} StepTracks(bank: string, text: string, a: Applied, m: Mutation, o: Op)
    requires Parsed(o) && Tracks(text, a, m) && Aligned(text, a.strPos, o)
    requires ApplyStep(bank, text, a, o).Ok?
    ensures MutateStep(bank, m, o).Ok?
    ensures Tracks(text, ApplyStep(bank, text, a, o).value, MutateStep(bank, m, o).value)
  {
    match o.opcode
    case Insert => InsertTracks(bank, text, a, m, o);
    case Delete => DeleteTracks(bank, text, a, m, o);
    case Keep => KeepTracks(bank, text, a, m, o);
  }

  lemma {:induction false} InsertTracks(bank: string, text: string, a: Applied, m: Mutation, o: Op)
    requires Parsed(o) && o.opcode == Insert && Tracks(text, a, m)
    requires ApplyStep(bank, text, a, o).Ok?
    ensures MutateStep(bank, m, o).Ok?
    ensures Tracks(text, ApplyStep(bank, text, a, o).value, MutateStep(bank, m, o).value)
  {
    hide M.Remove, M.Skip, M.Insert, At;
    var n, L := Width(o), LineCount(o);
    var t := bank[a.bankPos..a.bankPos + n];
    var rest := text[a.strPos..];
    assert ApplyStep(bank, text, a, o) == Ok(a.(bankPos := a.bankPos + n, out := a.out + t));
    assert L == Count(t, '\n');
    assert MutateStep(bank, m, o) == (match M.Insert(m.w, t, L) case Ok(w) => Ok(Mutated(m.bankPos + n, w)) case Err(e) => Err(e));
    hide ApplyStep, MutateStep;
    if t == [] {
      InsertNothing(m.w, L);
      assert a.out + t == a.out;
    } else if L == 0 {
      InsertWithin(m.w, t, a.out, rest);
    } else {
      InsertAcross(m.w, t, L, a.out, rest);
    }
  }

  lemma {:induction false} DeleteTracks(bank: string, text: string, a: Applied, m: Mutation, o: Op)
    requires Parsed(o) && o.opcode == Delete && Tracks(text, a, m) && Aligned(text, a.strPos, o)
    requires ApplyStep(bank, text, a, o).Ok?
    ensures MutateStep(bank, m, o).Ok?
    ensures Tracks(text, ApplyStep(bank, text, a, o).value, MutateStep(bank, m, o).value)
  {
    hide M.Remove, M.Skip, M.Insert, At;
    var n, L := Width(o), LineCount(o);
    var rest := text[a.strPos..];
    assert text[a.strPos..a.strPos + n] == rest[..n];
    assert ApplyStep(bank, text, a, o) == Ok(a.(strPos := a.strPos + n));
    assert L == Count(rest[..n], '\n') && a.strPos + n < |text|;
    assert L > 0 ==> rest[n - 1] == '\n';
    assert text[a.strPos + n..] == rest[n..];
    assert MutateStep(bank, m, o) == (match M.Remove(m.w, n, L) case Ok(d) => Ok(Mutated(m.bankPos, d.1)) case Err(e) => Err(e));
    hide ApplyStep, MutateStep;
    if n == 0 {
      RemoveZero(m.w, L);
      assert rest[0..] == rest;
    } else if L == 0 {
      RemoveWithin(m.w, n, a.out, rest);
    } else {
      RemoveAcross(m.w, n, L, a.out, rest);
    }
  }

  lemma {:induction false} RemoveZero(w: M.Window, L: nat)
    requires M.Coherent(w)
    ensures M.Remove(w, 0, L) == Ok(("", w))
  {
  }

  lemma {:induction false} SkipZero(w: M.Window, L: nat, inc: bool)
    requires M.Coherent(w)
    ensures M.Skip(w, 0, L, inc) == Ok(w)
  {
  }

  lemma {:induction false} KeepTracks(bank: string, text: string, a: Applied, m: Mutation, o: Op)
    requires Parsed(o) && o.opcode == Keep && Tracks(text, a, m) && Aligned(text, a.strPos, o)
    requires ApplyStep(bank, text, a, o).Ok?
    ensures MutateStep(bank, m, o).Ok?
    ensures Tracks(text, ApplyStep(bank, text, a, o).value, MutateStep(bank, m, o).value)
  {
    hide M.Remove, M.Skip, M.Insert, At;
    var n, L, inc := Width(o), LineCount(o), o.attribs != [];
    var rest := text[a.strPos..];
    assert text[a.strPos..a.strPos + n] == rest[..n];
    assert ApplyStep(bank, text, a, o) == Ok(a.(strPos := a.strPos + n, out := a.out + rest[..n]));
    assert L == Count(rest[..n], '\n') && a.strPos + n < |text|;
    assert L > 0 ==> rest[n - 1] == '\n';
    assert text[a.strPos + n..] == rest[n..];
    assert MutateStep(bank, m, o) == (match M.Skip(m.w, n, L, inc) case Ok(w) => Ok(Mutated(m.bankPos, w)) case Err(e) => Err(e));
    hide ApplyStep, MutateStep;
    if n == 0 {
      SkipZero(m.w, L, inc);
      assert rest[0..] == rest && a.out + rest[..0] == a.out;
    } else if L == 0 {
      SkipWithin(m.w, n, inc, a.out, rest);
    } else {
      SkipAcross(m.w, n, L, inc, a.out, rest);
    }
  }

  /** The two loops stay in step over aligned ops as long as
      `applyToText`'s does not throw. */
  lemma {:induction false} FoldTracks(bank: string, text: string, ops: seq<Op>)
    requires text != [] && AllParsed(ops) && LineAligned(text, ops)
    requires Fold(ApplyFn(bank, text), AppliedInit, ops).Ok?
    ensures Fold(MutateFn(bank), Initial(M.TextLines(text)), ops).Ok?
    ensures Tracks(text, Fold(ApplyFn(bank, text), AppliedInit, ops).value,
                   Fold(MutateFn(bank), Initial(M.TextLines(text)), ops).value)
  {
    var init := Initial(M.TextLines(text));
    if ops == [] {
      TracksInitial(text);
    } else {
      var front, o := ops[..|ops| - 1], ops[|ops| - 1];
      assert ops == front + [o];
      FoldSnoc(ApplyFn(bank, text), AppliedInit, front, o);
      FoldSnoc(MutateFn(bank), init, front, o);
      assert AllParsed(front) && Parsed(o);
      assert LineAligned(text, front) by {
        forall k | 0 <= k < |front| ensures Aligned(text, Total(front[..k], {Keep, Delete}), front[k]) {
          assert front[..k] == ops[..k] && front[k] == ops[k];
        }
      }
      assert Aligned(text, Total(front, {Keep, Delete}), o) by {
        assert ops[..|front|] == front;
      }
      hide Fold, ApplyFn, MutateFn, LineAligned, Tracks, Aligned, AllParsed;
      FoldTracks(bank, text, front);
      ApplyFold(bank, text, front);
      var a0 := Fold(ApplyFn(bank, text), AppliedInit, front).value;
      var m0 := Fold(MutateFn(bank), init, front).value;
      assert a0.strPos == Total(front, {Keep, Delete});
      StepTracks(bank, text, a0, m0, o);
    }
  }

  /** `mutateTextLines` run over the lines of a text leaves the lines of
      the text `applyToText` returns, when the changeset applies to that
      text and its keeps and deletes are aligned with its lines. */
  lemma {:induction false} MutateAgreesWithApply(cs: string, text: string)
    requires text != [] && Unpack(cs).Ok? && ApplyToTextSpec(cs, text).Ok?
    requires LineAligned(text, ParseOps(Unpack(cs).value.ops).ops)
    ensures MutateTextLinesSpec(cs, M.TextLines(text)).Ok?
    ensures Join(MutateTextLinesSpec(cs, M.TextLines(text)).value) == ApplyToTextSpec(cs, text).value
  {
    ApplyToTextSpecCases(cs, text);
    var c := Unpack(cs).value;
    var st := ParseOps(c.ops);
    var init := Initial(M.TextLines(text));
    ForOfOk(ApplyFn(c.charBank, text), AppliedInit, st);
    ForOfOk(MutateFn(c.charBank), init, st);
    assert !st.fault && Visible(st) == st.ops && AllParsed(st.ops);
    FoldTracks(c.charBank, text, st.ops);
    var a := Fold(ApplyFn(c.charBank, text), AppliedInit, st.ops).value;
    var m := Fold(MutateFn(c.charBank), init, st.ops).value;
    TextLines.LoopEnds(c.charBank, c.ops, M.TextLines(text), m);
    assert MutateTextLinesSpec(cs, M.TextLines(text)) == Ok(M.Doc(m.w));
    assert ApplyToTextSpec(cs, text) == Ok(a.out + text[a.strPos..]);
    CutJoin(M.Doc(m.w), m.w.curLine, m.w.curCol, a.out, text[a.strPos..]);
  }

  /** The lines of a document cut by a cursor join to what lies before it
      and what follows it. */
  lemma {:induction false} CutJoin(d: seq<string>, c: nat, col: nat, out: string, rest: string)
    requires Cut(d, c, col, out, rest)
    ensures Join(d) == out + rest
  {
    JoinSplit(d, c);
    assert d[c] == d[c][..col] + d[c][col..];
  }

  // ---------------------------------------------------------------- misaligned ops

  /** Why the keeps must be aligned: on the text `y\nz\n`, a keep of three
      characters and one newline ends inside the second line.
      `applyToText` copies those characters and then inserts `Q` after
      `z`... */
  lemma {:induction false} UnalignedKeepApplied()
    ensures var text := "y\nz\n";
            var a1 := ApplyStep("Q", text, AppliedInit, Op(Keep, 3, 1, []));
            && a1.Ok?
            && var a2 := ApplyStep("Q", text, a1.value, Op(Insert, 1, 0, []));
            && a2.Ok? && a2.value.out + text[a2.value.strPos..] == "y\nzQ\n"
  {
    var text := "y\nz\n";
    assert text[0..3] == "y\nz";
    assert Count("y\nz", '\n') == 1;
    assert Count("Q", '\n') == 0;
    assert Width(Op(Keep, 3, 1, [])) == 3 && Width(Op(Insert, 1, 0, [])) == 1;
    assert PeekAt(text, 0, 3).Ok? && PeekAt(text, 0, 3).value == "y\nz";
    assert PeekAt("Q", 0, 1).Ok? && PeekAt("Q", 0, 1).value == "Q";
    assert ApplyStep("Q", text, AppliedInit, Op(Keep, 3, 1, [])).Ok?;
    assert ApplyStep("Q", text, AppliedInit, Op(Keep, 3, 1, [])).value == Applied(0, 3, "y\nz");
    assert ApplyStep("Q", text, Applied(0, 3, "y\nz"), Op(Insert, 1, 0, [])).Ok?;
    assert ApplyStep("Q", text, Applied(0, 3, "y\nz"), Op(Insert, 1, 0, [])).value == Applied(1, 3, "y\nzQ");
    assert text[3..] == "\n";
  }

  /** The lines the example starts from are those of `y\nz\n`. */
  lemma {:induction false} UnalignedKeepLines()
    ensures M.TextLines("y\nz\n") == ["y\n", "z\n"]
  {
    var t0, t1, t2, t3 := "y\nz\n", "\nz\n", "z\n", "\n";
    assert t0[1..] == t1 && t1[1..] == t2 && t2[1..] == t3 && t3[1..] == [];
    assert M.TextLines(t3[1..]) == [];
    assert M.TextLines(t3) == [t3];
    assert M.TextLines(t2) == [[t2[0]] + t3];
    assert [t2[0]] + t3 == t2;
    assert M.TextLines(t1) == [t3, t2];
    assert M.TextLines(t0) == [[t0[0]] + t3, t2];
    assert [t0[0]] + t3 == "y\n";
  }

  /** ...while the mutator skips whole lines for a keep with newlines, so
      its cursor stands at the start of the second line and `Q` goes in
      before `z`. */
  lemma {:induction false} UnalignedKeepMutated()
    ensures var m1 := MutateStep("Q", Initial(["y\n", "z\n"]), Op(Keep, 3, 1, []));
            && m1.Ok?
            && var m2 := MutateStep("Q", m1.value, Op(Insert, 1, 0, []));
            && m2.Ok? && M.Doc(m2.value.w) == ["y\n", "Qz\n"]
  {
    var m1 := MutateStep("Q", Initial(["y\n", "z\n"]), Op(Keep, 3, 1, [])).value;
    assert m1.w.curLine == 1 && m1.w.curCol == 0 && M.Doc(m1.w) == ["y\n", "z\n"] && M.Sound(m1.w) && m1.bankPos == 0;
    M.InsertInLine(m1.w, "Q");
    assert "Q"[0..1] == "Q";
    assert MutateStep("Q", m1, Op(Insert, 1, 0, [])) == Ok(Mutated(1, M.Insert(m1.w, "Q", 0).value));
    assert Substring("z\n", 0, 0) + "Q" + M.From("z\n", 0) == "Qz\n";
  }
}
