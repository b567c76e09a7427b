/** `TextLinesMutator` (Changeset.js lines 663-966): edits an array of
    lines in place, one op at a time, by collecting the changed lines of a
    stretch of the array in a pending splice and writing the splice back
    when the stretch ends.

    The state the object keeps is given as a value, `Window`; every method
    of the class is proved to move the object to the window a function of
    the same name computes, and the lemmas say what those functions do to
    the document the window stands for. */
module Mutators {
  import opened Results
  import opened Texts
  import opened Assemblers

  // ---------------------------------------------------------------- strings

  /** `s.substring(a)`: from `a` (clamped) to the end. */
  function From(s: string, a: int): (r: string)
    ensures |r| <= |s|
  {
    Substring(s, a, |s|)
  }

  /** Cutting a line at a column and gluing the halves gives it back,
      whatever the column. */
  lemma {:induction false} CutGlue(s: string, c: nat)
    ensures Substring(s, 0, c) + From(s, c) == s
  {
    var x := Clamp(c, |s|);
    assert Substring(s, 0, c) == s[..x];
    assert From(s, c) == s[x..];
  }

  /** Cutting a span of `n` characters out of a line at a column: what is
      cut and the two sides around it make up the line. */
  lemma {:induction false} CutSpan(s: string, c: nat, n: nat)
    ensures Substring(s, 0, c) + Substring(s, c, c + n) + From(s, c + n) == s
  {
    var x, y := Clamp(c, |s|), Clamp(c + n, |s|);
    assert x <= y;
    assert Substring(s, 0, c) == s[..x];
    assert Substring(s, c, c + n) == s[x..y];
    assert From(s, c + n) == s[y..];
  }

  /** `text.match(/[^\n]*(?:\n|[^\n]$)/g)`: the text cut after every
      newline, with a last piece for characters after the last newline. */
  function TextLines(text: string): (r: seq<string>)
    decreases |text|
  {
    if text == [] then []
    else
      var rest := TextLines(text[1..]);
      if text[0] == '\n' || rest == [] then [[text[0]]] + rest
      else [[text[0]] + rest[0]] + rest[1..]
  }

  /** A piece of `splitTextLines`: non-empty, with a newline at most at its
      end. */
  predicate LinePiece(p: string) {
    p != [] && forall j :: 0 <= j < |p| - 1 ==> p[j] != '\n'
  }

  /** `splitTextLines(text)`: `null` (no match) exactly for the empty
      text. */
  function SplitTextLines(text: string): (r: Option<seq<string>>)
    ensures r.None? <==> text == []
    ensures r.Some? ==> |r.value| >= 1
  {
    if text == [] then None
    else
      TextLinesShape(text);
      Some(TextLines(text))
  }

  /** The pieces of `splitTextLines` put back together are the text; each
      is a line of it, and every piece but the last ends with a newline. */
  ghost predicate Shaped(text: string, r: seq<string>) {
    && Join(r) == text
    && (|r| == 0 <==> text == [])
    && (forall i :: 0 <= i < |r| ==> LinePiece(r[i]))
    && (forall i :: 0 <= i < |r| - 1 ==> r[i][|r[i]| - 1] == '\n')
  }

  lemma {:induction false} TextLinesShape(text: string)
    ensures Shaped(text, TextLines(text))
    decreases |text|
  {
    if text == [] {
      assert TextLines(text) == [];
    } else {
      var t := text[1..];
      var rest := TextLines(t);
      var c := text[0];
      assert text == [c] + t;
      if c == '\n' || rest == [] {
        assert TextLines(text) == [[c]] + rest;
        hide *;
        TextLinesShape(t);
        ShapedCons(c, t, rest);
      } else {
        assert TextLines(text) == [[c] + rest[0]] + rest[1..];
        hide *;
        TextLinesShape(t);
        ShapedGlue(c, t, rest);
      }
    }
  }

  /** A newline, or a character before nothing, is a piece of its own. */
  lemma {:induction false} ShapedCons(c: char, t: string, rest: seq<string>)
    requires Shaped(t, rest) && (c == '\n' || rest == [])
    ensures Shaped([c] + t, [[c]] + rest)
  {
    var r := [[c]] + rest;
    JoinCons([c], rest);
    forall i | 0 <= i < |r| ensures LinePiece(r[i]) {
      if i > 0 {
        assert r[i] == rest[i - 1];
      }
    }
    forall i | 0 <= i < |r| - 1 ensures r[i][|r[i]| - 1] == '\n' {
      if i > 0 {
        assert r[i] == rest[i - 1];
      }
    }
  }

  /** Any other character joins the piece that follows it. */
  lemma {:induction false} ShapedGlue(c: char, t: string, rest: seq<string>)
    requires Shaped(t, rest) && c != '\n' && rest != []
    ensures Shaped([c] + t, [[c] + rest[0]] + rest[1..])
  {
    var first := [c] + rest[0];
    var r := [first] + rest[1..];
    JoinCons(first, rest[1..]);
    JoinCons(rest[0], rest[1..]);
    assert rest == [rest[0]] + rest[1..];
    assert LinePiece(rest[0]);
    assert LinePiece(first) by {
      forall j | 0 <= j < |first| - 1 ensures first[j] != '\n' {
        if j > 0 {
          assert first[j] == rest[0][j - 1];
        }
      }
    }
    forall i | 0 <= i < |r| ensures LinePiece(r[i]) {
      if i > 0 {
        assert r[i] == rest[i];
      }
    }
    forall i | 0 <= i < |r| - 1 ensures r[i][|r[i]| - 1] == '\n' {
      if i > 0 {
        assert r[i] == rest[i];
      } else {
        assert first[|first| - 1] == rest[0][|rest[0]| - 1];
      }
    }
  }

  lemma {:induction false} JoinCons(x: string, xs: seq<string>)
    ensures Join([x] + xs) == x + Join(xs)
    decreases |xs|
  {
    if xs == [] {
      assert [x] + xs == [x];
      assert Join([x]) == Join([]) + x;
    } else {
      var front, last := xs[..|xs| - 1], xs[|xs| - 1];
      var ys := [x] + xs;
      JoinCons(x, front);
      assert ys[..|ys| - 1] == [x] + front && ys[|ys| - 1] == last;
      assert Join(ys) == Join([x] + front) + last;
      assert Join(xs) == Join(front) + last;
      assert (x + Join(front)) + last == x + (Join(front) + last);
    }
  }

  lemma {:induction false} JoinAppend(xs: seq<string>, ys: seq<string>)
    ensures Join(xs + ys) == Join(xs) + Join(ys)
    decreases |ys|
  {
    if ys == [] {
      assert xs + ys == xs;
      assert Join(ys) == "";
    } else {
      var front, y := ys[..|ys| - 1], ys[|ys| - 1];
      assert ys == front + [y];
      assert xs + ys == (xs + front) + [y];
      hide *;
      JoinAppend(xs, front);
      JoinSnoc(xs + front, y);
      JoinSnoc(front, y);
    }
  }

  // ---------------------------------------------------------------- arrays

  /** `xs.splice(s, d, ...items)`: the start clamped into the array, the
      count clamped to what follows it. */
  function ArraySplice(xs: seq<string>, s: nat, d: nat, items: seq<string>): (r: seq<string>)
    ensures s + d <= |xs| ==> r == xs[..s] + items + xs[s + d..]
  {
    var a := Clamp(s, |xs|);
    var b := Clamp(a + d, |xs|);
    xs[..a] + items + xs[b..]
  }

  /** `xs.slice(a, b)`: both ends clamped, empty when they cross. */
  function ArraySlice(xs: seq<string>, a: nat, b: nat): (r: seq<string>)
    ensures a <= b <= |xs| ==> r == xs[a..b]
  {
    var x, y := Clamp(a, |xs|), Clamp(b, |xs|);
    if x <= y then xs[x..y] else []
  }

  /** `_linesGet(i)`; a read past the end fails instead of yielding
      `undefined`. */
  function LineAt(lines: seq<string>, i: int): (r: Result<string>)
    ensures r.Ok? <==> 0 <= i < |lines|
    ensures r.Ok? ==> r.value == lines[i]
    ensures r.Err? ==> r.error == MissingLine
  {
    if 0 <= i < |lines| then Ok(lines[i]) else Err(MissingLine)
  }

  // ---------------------------------------------------------------- window

  /** The fields of a mutator: the array, the pending splice `_curSplice`
      (its start, the number of array lines it replaces and the lines that
      replace them), whether a splice is open, and the cursor, a line of
      the document as the splice would leave it and a column in it. */
  datatype Window = Window(lines: seq<string>, start: nat, removed: nat, items: seq<string>,
                           inSplice: bool, curLine: nat, curCol: nat)

  /** `new TextLinesMutator(lines)`. */
  function Init(lines: seq<string>): (w: Window)
    ensures Coherent(w) && Doc(w) == lines
  {
    Window(lines, 0, 0, [], false, 0, 0)
  }

  /** The cursor line is the last line of the splice or the one after it. */
  predicate Spans(w: Window) {
    w.start <= w.curLine && |w.items| - 1 <= w.curLine - w.start <= |w.items|
  }

  /** The class invariant, as the constructor's comment states it: an open
      splice ends at the cursor line or just before it, and in the latter
      case the cursor stands at column 0; a closed splice holds no lines. */
  predicate Coherent(w: Window) {
    && (!w.inSplice ==> w.items == [])
    && (w.inSplice ==> Spans(w) && (w.curLine - w.start == |w.items| ==> w.curCol == 0))
  }

  /** The splice replaces array lines that exist. */
  predicate Fits(w: Window) {
    w.start + w.removed <= |w.lines|
  }

  /** An open splice fits the array. */
  predicate Tidy(w: Window) {
    w.inSplice ==> Fits(w)
  }

  /** A window whose cursor line lies in its document, or just after it. */
  predicate Sound(w: Window) {
    Coherent(w) && Tidy(w) && w.curLine <= |Doc(w)|
  }

  /** The array with the pending splice written back. */
  function Spliced(w: Window): seq<string> {
    ArraySplice(w.lines, w.start, w.removed, w.items)
  }

  /** The document a mutator stands for: the array as `close()` would
      leave it. */
  function Doc(w: Window): seq<string> {
    if w.inSplice then Spliced(w) else w.lines
  }

  /** `_isCurLineInSplice()`. */
  function CurLineInSplice(w: Window): bool {
    w.curLine - w.start < |w.items|
  }

  /** `_putCurLineInSplice()`: unless it is there already, the cursor line
      is read from the array into the splice, which now replaces one more
      array line. */
  function PutCurLine(w: Window): (r: Result<Window>)
    requires Spans(w)
    ensures r.Err? ==> r.error == MissingLine
    ensures r.Ok? ==> Spans(r.value) && r.value.curLine - r.value.start == |r.value.items| - 1
    ensures r.Ok? ==> r.value.(items := w.items, removed := w.removed) == w
  {
    if CurLineInSplice(w) then Ok(w)
    else
      var line :- LineAt(w.lines, w.start + w.removed);
      Ok(w.(items := w.items + [line], removed := w.removed + 1))
  }

  /** `_enterSplice()`: a splice opens at the cursor line, taking the line
      in when the cursor is inside it. */
  function EnterSplice(w: Window): (r: Result<Window>)
    requires Coherent(w) && !w.inSplice
    ensures r.Err? ==> r.error == MissingLine
    ensures r.Ok? ==> Coherent(r.value) && r.value.inSplice
                      && r.value.curLine == w.curLine && r.value.curCol == w.curCol
  {
    var w1 := w.(start := w.curLine, removed := 0);
    var w2 :- if w.curCol > 0 then PutCurLine(w1) else Ok(w1);
    Ok(w2.(inSplice := true))
  }

  /** `if (!this._inSplice) this._enterSplice()`, which most operations
      begin with. */
  function Open(w: Window): (r: Result<Window>)
    requires Coherent(w)
    ensures r.Err? ==> r.error == MissingLine
    ensures r.Ok? ==> Coherent(r.value) && r.value.inSplice
                      && r.value.curLine == w.curLine && r.value.curCol == w.curCol
  {
    if !w.inSplice then EnterSplice(w) else Ok(w)
  }

  /** `_leaveSplice()`: the splice is written back into the array. */
  function LeaveSplice(w: Window): (r: Window)
    ensures Coherent(r) && !r.inSplice && r.lines == Spliced(w)
    ensures r.curLine == w.curLine && r.curCol == w.curCol
  {
    w.(lines := Spliced(w), start := 0, removed := 0, items := [], inSplice := false)
  }

  /** The loop of `skipLines(k, true)`: each line is taken into the splice
      and passed. */
  function SkipLinesLoop(w: Window, k: nat): (r: Result<Window>)
    requires Spans(w)
    ensures r.Err? ==> r.error == MissingLine
    ensures r.Ok? ==> Spans(r.value) && r.value.inSplice == w.inSplice
    ensures r.Ok? && k > 0 ==> r.value.curCol == 0 && r.value.curLine - r.value.start == |r.value.items|
    decreases k
  {
    if k == 0 then Ok(w)
    else
      var w1 :- PutCurLine(w.(curCol := 0));
      SkipLinesLoop(w1.(curLine := w1.curLine + 1), k - 1)
  }

  /** `skipLines(L, includeInSplice)`. */
  function SkipLines(w: Window, L: nat, inc: bool): (r: Result<Window>)
    requires Coherent(w)
    ensures r.Err? ==> r.error == MissingLine
    ensures r.Ok? ==> Coherent(r.value)
  {
    if L == 0 then Ok(w)
    else if inc then
      var w1 :- Open(w);
      SkipLinesLoop(w1, L)
    else
      var w1 :- if w.inSplice then (if L > 1 then Ok(LeaveSplice(w)) else PutCurLine(w)) else Ok(w);
      Ok(w1.(curLine := w1.curLine + L, curCol := 0))
  }

  /** `skip(N, L, includeInSplice)`. */
  function Skip(w: Window, N: nat, L: nat, inc: bool): (r: Result<Window>)
    requires Coherent(w)
    ensures r.Err? ==> r.error == MissingLine
    ensures r.Ok? ==> Coherent(r.value)
  {
    if N == 0 then Ok(w)
    else if L > 0 then SkipLines(w, L, inc)
    else
      var w1 :- if inc && !w.inSplice then EnterSplice(w) else Ok(w);
      var w2 :- if w1.inSplice then PutCurLine(w1) else Ok(w1);
      Ok(w2.(curCol := w2.curCol + N))
  }

  /** `nextKLinesText(k)`: the `k` array lines after those the splice
      replaces, joined. */
  function NextLines(w: Window, k: nat): string {
    Join(ArraySlice(w.lines, w.start + w.removed, w.start + w.removed + k))
  }

  /** `removeLines(L)`: the text removed and the window after. */
  function RemoveLines(w: Window, L: nat): (r: Result<(string, Window)>)
    requires Coherent(w)
    ensures r.Err? ==> r.error == MissingLine
    ensures r.Ok? ==> Coherent(r.value.1)
  {
    if L == 0 then Ok(("", w))
    else
      var w1 :- Open(w);
      if CurLineInSplice(w1) then
        var sl := |w1.items| - 1;
        if w1.curCol == 0 then
          var w2 := w1.(items := w1.items[..sl]);
          Ok((w1.items[sl] + NextLines(w2, L - 1), w2.(removed := w2.removed + (L - 1))))
        else
          var w2 := w1.(removed := w1.removed + (L - 1));
          var next :- LineAt(w2.lines, w2.start + w2.removed);
          var line := w2.items[sl];
          Ok((From(line, w2.curCol) + NextLines(w1, L - 1),
              w2.(items := w2.items[sl := Substring(line, 0, w2.curCol) + next], removed := w2.removed + 1)))
      else
        Ok((NextLines(w1, L), w1.(removed := w1.removed + L)))
  }

  /** `remove(N, L)`: the text removed and the window after. */
  function Remove(w: Window, N: nat, L: nat): (r: Result<(string, Window)>)
    requires Coherent(w)
    ensures r.Err? ==> r.error == MissingLine
    ensures r.Ok? ==> Coherent(r.value.1)
  {
    if N == 0 then Ok(("", w))
    else if L > 0 then RemoveLines(w, L)
    else
      var w1 :- Open(w);
      var w2 :- PutCurLine(w1);
      var sl := |w2.items| - 1;
      var line := w2.items[sl];
      Ok((Substring(line, w2.curCol, w2.curCol + N),
          w2.(items := w2.items[sl := Substring(line, 0, w2.curCol) + From(line, w2.curCol + N)])))
  }

  /** `insert(text, L)`: the window after. */
  function Insert(w: Window, text: string, L: nat): (r: Result<Window>)
    requires Coherent(w)
    ensures r.Err? ==> r.error == MissingLine
    ensures r.Ok? ==> Coherent(r.value)
  {
    if text == [] then Ok(w)
    else
      var w1 :- Open(w);
      if L > 0 then
        var pieces := SplitTextLines(text).value;
        if CurLineInSplice(w1) then
          var sl := |w1.items| - 1;
          var line := w1.items[sl];
          var items := w1.items[sl := Substring(line, 0, w1.curCol) + pieces[0]] + pieces[1..] + [From(line, w1.curCol)];
          Ok(w1.(items := items, curLine := w1.curLine + |pieces|, curCol := 0))
        else
          Ok(w1.(items := w1.items + pieces, curLine := w1.curLine + |pieces|))
      else
        var w2 :- PutCurLine(w1);
        var sl := |w2.items| - 1;
        var line := w2.items[sl];
        Ok(w2.(items := w2.items[sl := Substring(line, 0, w2.curCol) + text + From(line, w2.curCol)],
               curCol := w2.curCol + |text|))
  }

  /** `hasMore()`: the array length corrected by what the splice adds and
      removes, compared with the cursor line. */
  function HasMore(w: Window): bool {
    w.curLine < |w.lines| + (if w.inSplice then |w.items| - w.removed else 0)
  }

  /** `close()`. */
  function Close(w: Window): (r: Window)
    requires Coherent(w)
    ensures Coherent(r) && !r.inSplice && r.curLine == w.curLine && r.curCol == w.curCol
    ensures r.lines == Doc(w) && Doc(r) == Doc(w)
  {
    if w.inSplice then LeaveSplice(w) else w
  }

  // ---------------------------------------------------------------- the document

  /** A document cut around a stretch: what comes before it, the stretch
      and the first `k` lines after it. */
  lemma {:induction false} Around(p: seq<string>, m: seq<string>, q: seq<string>, k: nat)
    requires k <= |q|
    ensures var d := p + m + q;
            && d[..|p| + |m|] == p + m
            && d[|p| + |m|..|p| + |m| + k] == q[..k]
            && d[|p| + |m| + k..] == q[k..]
  {
  }

  /** A splice that fits: its lines stand between the array lines before
      its start and those after the ones it replaces. */
  lemma {:induction false} SplicedFits(w: Window)
    requires Fits(w)
    ensures Spliced(w) == w.lines[..w.start] + w.items + w.lines[w.start + w.removed..]
    ensures |Spliced(w)| == |w.lines| - w.removed + |w.items|
  {
  }

  /** `_putCurLineInSplice()` leaves the document as it is; it fails
      exactly when the cursor line lies past the end of the document, and
      otherwise the cursor line is the last line of the splice. */
  lemma {:induction false} PutKeeps(w: Window)
    requires Spans(w) && Fits(w)
    ensures Put(w)
  {
    if CurLineInSplice(w) {
      PutInSplice(w);
    } else if w.start + w.removed < |w.lines| {
      PutReads(w);
    } else {
      PutPastEnd(w);
    }
  }

  ghost predicate Put(w: Window)
    requires Spans(w)
  {
    var r := PutCurLine(w);
    && (r.Err? <==> w.curLine >= |Spliced(w)|)
    && (r.Ok? ==> Fits(r.value) && Spliced(r.value) == Spliced(w)
                  && r.value.items[|r.value.items| - 1] == Spliced(w)[w.curLine])
  }

  lemma {:induction false} PutInSplice(w: Window)
    requires Spans(w) && Fits(w) && CurLineInSplice(w)
    ensures Put(w)
  {
    SplicedFits(w);
    assert PutCurLine(w) == Ok(w);
    assert w.curLine == w.start + (|w.items| - 1);
  }

  lemma {:induction false} PutReads(w: Window)
    requires Spans(w) && Fits(w) && !CurLineInSplice(w) && w.start + w.removed < |w.lines|
    ensures Put(w)
  {
    var line := w.lines[w.start + w.removed];
    var w1 := w.(items := w.items + [line], removed := w.removed + 1);
    hide *;
    PutReadsLine(w);
    SplicedGrows(w);
    PutIntro(w, w1, line);
  }

  lemma {:induction false} PutReadsLine(w: Window)
    requires Spans(w) && !CurLineInSplice(w) && w.start + w.removed < |w.lines|
    ensures var line := w.lines[w.start + w.removed];
            PutCurLine(w) == Ok(w.(items := w.items + [line], removed := w.removed + 1))
  {
  }

  /** Moving the first array line after the splice into it. */
  lemma {:induction false} SplicedGrows(w: Window)
    requires Spans(w) && !CurLineInSplice(w) && w.start + w.removed < |w.lines|
    ensures var line := w.lines[w.start + w.removed];
            var w1 := w.(items := w.items + [line], removed := w.removed + 1);
            && Fits(w1) && Spliced(w1) == Spliced(w)
            && w.curLine < |Spliced(w)| && Spliced(w)[w.curLine] == line
  {
    hide Spliced, ArraySplice;
    var s, rm := w.start, w.removed;
    var line := w.lines[s + rm];
    var w1 := w.(items := w.items + [line], removed := rm + 1);
    var p, q := w.lines[..s], w.lines[s + rm + 1..];
    SplicedFits(w);
    SplicedFits(w1);
    assert w.lines[s + rm..] == [line] + q;
    assert p + (w.items + [line]) + q == p + w.items + ([line] + q);
    assert w.curLine == |p| + |w.items|;
  }

  lemma {:induction false} PutIntro(w: Window, w1: Window, line: string)
    requires Spans(w) && PutCurLine(w) == Ok(w1) && Fits(w1) && Spliced(w1) == Spliced(w)
    requires w1.items == w.items + [line] && w.curLine < |Spliced(w)| && Spliced(w)[w.curLine] == line
    ensures Put(w)
  {
  }

  lemma {:induction false} PutPastEnd(w: Window)
    requires Spans(w) && Fits(w) && !CurLineInSplice(w) && w.start + w.removed >= |w.lines|
    ensures Put(w)
  {
    SplicedFits(w);
  }

  /** `_enterSplice()` leaves the document as it is, and fails only when
      it must read a cursor line past the end of the array. */
  lemma {:induction false} EnterKeeps(w: Window)
    requires Coherent(w) && !w.inSplice
    ensures var r := EnterSplice(w);
            && (r.Err? <==> w.curCol > 0 && w.curLine >= |w.lines|)
            && (r.Ok? ==> Doc(r.value) == Doc(w) && (w.curLine <= |w.lines| ==> Tidy(r.value)))
            && (r.Ok? && w.curCol > 0 ==> r.value.curLine - r.value.start == |r.value.items| - 1
                                          && r.value.items[|r.value.items| - 1] == Doc(w)[w.curLine])
  {
    var w1 := w.(start := w.curLine, removed := 0);
    assert Spliced(w1) == w.lines;
    if w.curCol > 0 && w.curLine <= |w.lines| {
      PutKeeps(w1);
    }
  }

  /** Opening a splice where none is open, as most operations do first:
      the document stays, and only a cursor inside a line past the end
      makes it fail. */
  lemma {:induction false} OpenKeeps(w: Window)
    requires Sound(w)
    ensures var r := Open(w);
            && (r.Err? <==> !w.inSplice && w.curCol > 0 && w.curLine == |Doc(w)|)
            && (r.Ok? ==> Sound(r.value) && r.value.inSplice && Doc(r.value) == Doc(w)
                          && r.value.curLine == w.curLine && r.value.curCol == w.curCol)
            && (r.Ok? && w.curCol > 0 ==> r.value.curLine - r.value.start == |r.value.items| - 1)
  {
    if !w.inSplice {
      EnterKeeps(w);
    }
  }

  /** The last splice line, when it is the cursor line, replaced. */
  lemma {:induction false} SplicedUpdate(w: Window, y: string)
    requires Fits(w) && w.items != [] && w.curLine == w.start + |w.items| - 1
    ensures Spliced(w.(items := w.items[|w.items| - 1 := y])) == Spliced(w)[w.curLine := y]
  {
    var w1 := w.(items := w.items[|w.items| - 1 := y]);
    SplicedFits(w);
    SplicedFits(w1);
  }

  /** One turn of the loop of `skipLines(k, true)`: the cursor line is
      taken into the splice and passed. */
  lemma {:induction false} SkipLinesTurn(w: Window, k: nat)
    requires Spans(w) && Fits(w) && k > 0
    ensures Spans(w.(curCol := 0))
    ensures var r1 := PutCurLine(w.(curCol := 0));
            && (r1.Err? <==> w.curLine >= |Spliced(w)|)
            && (r1.Err? ==> SkipLinesLoop(w, k).Err?)
            && (r1.Ok? ==> var w2 := r1.value.(curLine := r1.value.curLine + 1);
                           && SkipLinesLoop(w, k) == SkipLinesLoop(w2, k - 1)
                           && Spans(w2) && Fits(w2) && Spliced(w2) == Spliced(w) && w2.curLine == w.curLine + 1)
  {
    var w0 := w.(curCol := 0);
    var r1 := PutCurLine(w0);
    SkipLinesUnfold(w, k);
    assert Spliced(w0) == Spliced(w);
    if r1.Ok? {
      var w2 := r1.value.(curLine := r1.value.curLine + 1);
      assert Spliced(w2) == Spliced(r1.value);
      assert w2.curLine == w.curLine + 1;
    }
    hide SkipLinesLoop, PutCurLine, ArraySplice, Spliced;
    PutKeeps(w0);
  }

  lemma {:induction false} SkipLinesUnfold(w: Window, k: nat)
    requires Spans(w) && k > 0
    ensures var r1 := PutCurLine(w.(curCol := 0));
            SkipLinesLoop(w, k) == (if r1.Err? then Err(r1.error) else SkipLinesLoop(r1.value.(curLine := r1.value.curLine + 1), k - 1))
  {
  }

  /** The loop of `skipLines(k, true)` leaves the document as it is, and
      fails exactly when it reaches past the end of the document. */
  lemma {:induction false} SkipLinesLoopKeeps(w: Window, k: nat)
    requires Spans(w) && Fits(w)
    ensures var r := SkipLinesLoop(w, k);
            && (k > 0 ==> (r.Ok? <==> w.curLine + k <= |Spliced(w)|))
            && (r.Ok? ==> Fits(r.value) && Spliced(r.value) == Spliced(w) && r.value.curLine == w.curLine + k)
  {
    var d := Spliced(w);
    var r := SkipLinesLoop(w, k);
    hide *;
    LoopKeeps(w, k, d, r);
  }

  ghost predicate LoopRan(w: Window, k: nat, d: seq<string>, r: Result<Window>) {
    && (k > 0 ==> (r.Ok? <==> w.curLine + k <= |d|))
    && (r.Ok? ==> Fits(r.value) && Spliced(r.value) == d && r.value.curLine == w.curLine + k)
  }

  lemma {:induction false} LoopKeeps(w: Window, k: nat, d: seq<string>, r: Result<Window>)
    requires Spans(w) && Fits(w) && d == Spliced(w) && r == SkipLinesLoop(w, k)
    ensures LoopRan(w, k, d, r)
    decreases k
  {
    hide *;
    if k > 0 {
      SkipLinesTurn(w, k);
      var r1 := PutCurLine(w.(curCol := 0));
      if r1.Ok? {
        var w2 := r1.value.(curLine := r1.value.curLine + 1);
        LoopKeeps(w2, k - 1, d, r);
        LoopZero(w2, k - 1);
        LoopRanTurn(w, k, d, r, w2);
      } else {
        LoopRanFails(w, k, d, r);
      }
    } else {
      LoopZero(w, k);
      LoopRanNone(w, d, r);
    }
  }

  lemma {:induction false} LoopRanNone(w: Window, d: seq<string>, r: Result<Window>)
    requires r == Ok(w) && Fits(w) && Spliced(w) == d
    ensures LoopRan(w, 0, d, r)
  {
  }

  lemma {:induction false} LoopRanTurn(w: Window, k: nat, d: seq<string>, r: Result<Window>, w2: Window)
    requires k > 0 && LoopRan(w2, k - 1, d, r) && w2.curLine == w.curLine + 1 && w.curLine < |d|
    requires k - 1 == 0 ==> r == Ok(w2) && Fits(w2) && Spliced(w2) == d
    ensures LoopRan(w, k, d, r)
  {
  }

  lemma {:induction false} LoopRanFails(w: Window, k: nat, d: seq<string>, r: Result<Window>)
    requires k > 0 && r.Err? && w.curLine >= |d|
    ensures LoopRan(w, k, d, r)
  {
  }

  lemma {:induction false} LoopZero(w: Window, k: nat)
    requires Spans(w)
    ensures k == 0 ==> SkipLinesLoop(w, k) == Ok(w)
  {
  }

  /** `skipLines(L, inc)` passes `L` lines of the document without changing
      it; it fails only when that would go past the end of the document,
      and when the lines are taken into the splice it fails exactly then. */
  lemma {:induction false} SkipLinesKeeps(w: Window, L: nat, inc: bool)
    requires Sound(w)
    ensures var r := SkipLines(w, L, inc);
            && (r.Ok? ==> Tidy(r.value) && Doc(r.value) == Doc(w) && r.value.curLine == w.curLine + L
                          && (L > 0 ==> r.value.curCol == 0))
            && (r.Err? ==> w.curLine + L > |Doc(w)|)
            && (inc && L > 0 ==> (r.Ok? <==> w.curLine + L <= |Doc(w)|))
  {
    if L > 0 {
      if inc {
        OpenKeeps(w);
        var r1 := Open(w);
        if r1.Ok? {
          SkipLinesLoopKeeps(r1.value, L);
        }
      } else if w.inSplice && L == 1 {
        PutKeeps(w);
      }
    }
  }

  /** `skip(N, L, inc)` moves the cursor without changing the document:
      over `L` lines when `L > 0`, else `N` columns along the line; it
      fails only when it would have to read a line past the end. */
  lemma {:induction false} SkipKeeps(w: Window, N: nat, L: nat, inc: bool)
    requires Sound(w)
    ensures var r := Skip(w, N, L, inc);
            && (r.Ok? ==> Tidy(r.value) && Doc(r.value) == Doc(w))
            && (r.Ok? && N > 0 && L > 0 ==> r.value.curLine == w.curLine + L && r.value.curCol == 0)
            && (r.Ok? && L == 0 ==> r.value.curLine == w.curLine && r.value.curCol == w.curCol + N)
            && (r.Err? ==> N > 0 && w.curLine + L >= |Doc(w)|)
            && (N > 0 && L == 0 && w.curLine < |Doc(w)| ==> r.Ok?)
  {
    if N > 0 {
      if L > 0 {
        SkipLinesKeeps(w, L, inc);
      } else {
        var r1 := if inc && !w.inSplice then EnterSplice(w) else Ok(w);
        if inc {
          OpenKeeps(w);
        }
        if r1.Ok? && r1.value.inSplice {
          PutKeeps(r1.value);
        }
      }
    }
  }

  // ---------------------------------------------------------------- edits

  /** The document of a window that fits, cut where the splice begins and
      where it ends. */
  lemma {:induction false} SplicedParts(w: Window)
    requires Fits(w)
    ensures var d, e := Spliced(w), w.start + |w.items|;
            && |d| == |w.lines| - w.removed + |w.items|
            && d[..w.start] == w.lines[..w.start]
            && d[w.start..e] == w.items
            && d[e..] == w.lines[w.start + w.removed..]
  {
    SplicedFits(w);
  }

  /** The `j` document lines after the splice are the `j` array lines after
      those it replaces. */
  lemma {:induction false} SplicedAfter(w: Window, j: nat)
    requires Fits(w) && w.start + w.removed + j <= |w.lines|
    ensures var e := w.start + |w.items|;
            e + j <= |Spliced(w)| && Spliced(w)[e..e + j] == w.lines[w.start + w.removed..w.start + w.removed + j]
  {
    SplicedParts(w);
    var d, e, a := Spliced(w), w.start + |w.items|, w.start + w.removed;
    assert d[e..e + j] == d[e..][..j];
    assert w.lines[a..a + j] == w.lines[a..][..j];
  }

  /** Replacing the splice lines from the `k`-th on by `m`, and replacing
      `j` more array lines, replaces the same stretch of the document. */
  lemma {:induction false} SplicedEdit(w: Window, k: nat, m: seq<string>, j: nat)
    requires Fits(w) && k <= |w.items| && w.start + w.removed + j <= |w.lines|
    ensures var w1 := w.(items := w.items[..k] + m, removed := w.removed + j);
            && Fits(w1)
            && Spliced(w1) == Spliced(w)[..w.start + k] + m + Spliced(w)[w.start + |w.items| + j..]
  {
    var w1 := w.(items := w.items[..k] + m, removed := w.removed + j);
    var s, rm := w.start, w.removed;
    SplicedFits(w);
    SplicedFits(w1);
    var d := Spliced(w);
    assert d[..s + k] == w.lines[..s] + w.items[..k];
    assert d[s + |w.items| + j..] == w.lines[s + rm + j..];
  }

  /** A window whose splice is open, fits, and ends with the cursor line. */
  predicate Placed(w: Window) {
    w.inSplice && Fits(w) && Spans(w) && w.curLine - w.start == |w.items| - 1
  }

  /** Opening a splice and taking the cursor line into it, as the in-line
      edits do: it fails exactly when the cursor line is past the end of
      the document, and otherwise the splice ends with that line. */
  lemma {:induction false} Reach(w: Window)
    requires Sound(w)
    ensures var r1 := Open(w);
            && (r1.Err? ==> w.curLine >= |Doc(w)|)
            && (r1.Ok? ==>
                  var r2 := PutCurLine(r1.value);
                  && (r2.Ok? <==> w.curLine < |Doc(w)|)
                  && (r2.Ok? ==> Placed(r2.value) && Coherent(r2.value) && Spliced(r2.value) == Doc(w)
                                 && r2.value.items[|r2.value.items| - 1] == Doc(w)[w.curLine]
                                 && r2.value.curLine == w.curLine && r2.value.curCol == w.curCol))
  {
    OpenKeeps(w);
    var r1 := Open(w);
    if r1.Ok? {
      PutKeeps(r1.value);
    }
  }

  /** `remove(N, 0)` cuts `N` characters out of the cursor line at the
      cursor column and returns them; the cursor stays. It fails exactly
      when the cursor line is past the end of the document. */
  lemma {:induction false} RemoveInLine(w: Window, N: nat)
    requires Sound(w) && N > 0
    ensures var r := Remove(w, N, 0);
            && (r.Ok? <==> w.curLine < |Doc(w)|)
            && (r.Ok? ==> var line, c := Doc(w)[w.curLine], w.curCol;
                          && r.value.0 == Substring(line, c, c + N)
                          && Substring(line, 0, c) + r.value.0 + From(line, c + N) == line
                          && Doc(r.value.1) == Doc(w)[w.curLine := Substring(line, 0, c) + From(line, c + N)]
                          && Tidy(r.value.1) && r.value.1.curLine == w.curLine && r.value.1.curCol == c)
  {
    Reach(w);
    RemoveInLineSteps(w, N);
    var r1 := Open(w);
    if r1.Ok? && PutCurLine(r1.value).Ok? {
      var w2 := PutCurLine(r1.value).value;
      var line := w2.items[|w2.items| - 1];
      var y := Substring(line, 0, w.curCol) + From(line, w.curCol + N);
      hide *;
      SplicedUpdate(w2, y);
      InsertInLineEnd(w2, y, 0);
      CutSpan(line, w.curCol, N);
    }
  }

  /** The steps of `remove(N, 0)`: open a splice, take the cursor line
      into it, and cut the span out of that line. */
  lemma {:induction false} RemoveInLineSteps(w: Window, N: nat)
    requires Coherent(w) && N > 0
    ensures var r1 := Open(w);
            && (r1.Err? ==> Remove(w, N, 0).Err?)
            && (r1.Ok? && PutCurLine(r1.value).Err? ==> Remove(w, N, 0).Err?)
            && (r1.Ok? && PutCurLine(r1.value).Ok? ==>
                  var w2 := PutCurLine(r1.value).value;
                  var line := w2.items[|w2.items| - 1];
                  Remove(w, N, 0)
                  == Ok((Substring(line, w2.curCol, w2.curCol + N),
                         w2.(items := w2.items[|w2.items| - 1 := Substring(line, 0, w2.curCol) + From(line, w2.curCol + N)]))))
  {
  }

  /** `insert(text, 0)` puts the text into the cursor line at the cursor
      column and moves the cursor past it. It fails exactly when the
      cursor line is past the end of the document. */
  lemma {:induction false} InsertInLine(w: Window, text: string)
    requires Sound(w) && text != []
    ensures var r := Insert(w, text, 0);
            && (r.Ok? <==> w.curLine < |Doc(w)|)
            && (r.Ok? ==> var line, c := Doc(w)[w.curLine], w.curCol;
                          && Doc(r.value) == Doc(w)[w.curLine := Substring(line, 0, c) + text + From(line, c)]
                          && Tidy(r.value) && r.value.curLine == w.curLine && r.value.curCol == c + |text|)
  {
    Reach(w);
    InsertInLineSteps(w, text);
    var r1 := Open(w);
    if r1.Ok? && PutCurLine(r1.value).Ok? {
      var w2 := PutCurLine(r1.value).value;
      var line := w2.items[|w2.items| - 1];
      var y := Substring(line, 0, w.curCol) + text + From(line, w.curCol);
      hide *;
      SplicedUpdate(w2, y);
      InsertInLineEnd(w2, y, |text|);
    }
  }

  /** The steps of `insert(text, 0)`: open a splice, take the cursor line
      into it, and rewrite that line. */
  lemma {:induction false} InsertInLineSteps(w: Window, text: string)
    requires Coherent(w) && text != []
    ensures var r1 := Open(w);
            && (r1.Err? ==> Insert(w, text, 0).Err?)
            && (r1.Ok? && PutCurLine(r1.value).Err? ==> Insert(w, text, 0).Err?)
            && (r1.Ok? && PutCurLine(r1.value).Ok? ==>
                  var w2 := PutCurLine(r1.value).value;
                  var line := w2.items[|w2.items| - 1];
                  Insert(w, text, 0)
                  == Ok(w2.(items := w2.items[|w2.items| - 1 := Substring(line, 0, w2.curCol) + text + From(line, w2.curCol)],
                            curCol := w2.curCol + |text|)))
  {
  }

  /** The window after the line is rewritten keeps the splice fitting. */
  lemma {:induction false} InsertInLineEnd(w2: Window, y: string, n: nat)
    requires Placed(w2)
    ensures var w3 := w2.(items := w2.items[|w2.items| - 1 := y], curCol := w2.curCol + n);
            && Tidy(w3) && Doc(w3) == Spliced(w2.(items := w2.items[|w2.items| - 1 := y]))
            && w3.curLine == w2.curLine
  {
  }

  /** The steps of `insert(text, L)` with `L > 0`: open a splice, then
      either break the cursor line around the new lines or add them after
      the splice. */
  lemma {:induction false} InsertLinesSteps(w: Window, text: string, L: nat)
    requires Coherent(w) && text != [] && L > 0
    ensures var r1 := Open(w);
            && (r1.Err? ==> Insert(w, text, L).Err?)
            && (r1.Ok? ==>
                  var w1, pieces := r1.value, TextLines(text);
                  && |pieces| >= 1
                  && (CurLineInSplice(w1) ==>
                        var sl := |w1.items| - 1;
                        var line := w1.items[sl];
                        Insert(w, text, L)
                        == Ok(w1.(items := w1.items[sl := Substring(line, 0, w1.curCol) + pieces[0]] + pieces[1..]
                                           + [From(line, w1.curCol)],
                                  curLine := w1.curLine + |pieces|, curCol := 0)))
                  && (!CurLineInSplice(w1) ==>
                        Insert(w, text, L) == Ok(w1.(items := w1.items + pieces, curLine := w1.curLine + |pieces|))))
  {
    var r1 := Open(w);
    if r1.Ok? {
      var w1 := r1.value;
      assert SplitTextLines(text) == Some(TextLines(text));
      var pieces := TextLines(text);
      if CurLineInSplice(w1) {
        var sl := |w1.items| - 1;
        var line := w1.items[sl];
        var items := w1.items[sl := Substring(line, 0, w1.curCol) + pieces[0]] + pieces[1..] + [From(line, w1.curCol)];
        assert Insert(w, text, L) == Ok(w1.(items := items, curLine := w1.curLine + |pieces|, curCol := 0));
      }
    }
  }

  /** Rewriting the last line of a list and adding lines after it. */
  lemma {:induction false} LastRewritten(items: seq<string>, a: string, rest: seq<string>, b: string)
    requires items != []
    ensures items[|items| - 1 := a] + rest + [b] == items[..|items| - 1] + ([a] + rest + [b])
  {
  }

  /** The document of an open splice does not depend on the cursor. */
  lemma {:induction false} DocIgnoresCursor(w: Window, items: seq<string>, line: nat, col: nat)
    requires w.inSplice
    ensures Doc(w.(items := items, curLine := line, curCol := col)) == Spliced(w.(items := items, removed := w.removed + 0))
  {
  }

  /** `insert(text, L)` with `L > 0` at the start of a line puts the lines
      of the text before the cursor line, which the cursor then stands at
      again. It cannot fail. */
  lemma {:induction false} InsertLinesAtStart(w: Window, text: string, L: nat)
    requires Sound(w) && text != [] && L > 0 && w.curCol == 0
    ensures var r := Insert(w, text, L);
            && r.Ok?
            && Doc(r.value) == Doc(w)[..w.curLine] + TextLines(text) + Doc(w)[w.curLine..]
            && Tidy(r.value) && r.value.curLine == w.curLine + |TextLines(text)| && r.value.curCol == 0
  {
    OpenKeeps(w);
    InsertLinesSteps(w, text, L);
    var w1 := Open(w).value;
    assert Doc(w1) == Spliced(w1) && Fits(w1) && Spans(w1) && Coherent(w1);
    hide *;
    if CurLineInSplice(w1) {
      BreakBefore(w1, TextLines(text));
    } else {
      AddAfter(w1, TextLines(text));
    }
  }

  /** The cursor line, the last line of the splice, broken at the cursor
      column around new lines. */
  lemma {:induction false} BreakAt(w1: Window, pieces: seq<string>)
    requires w1.inSplice && Fits(w1) && Spans(w1) && CurLineInSplice(w1) && |pieces| >= 1
    ensures var sl := |w1.items| - 1;
            var x, c, d := w1.items[sl], w1.curLine, Spliced(w1);
            var m := [Substring(x, 0, w1.curCol) + pieces[0]] + pieces[1..] + [From(x, w1.curCol)];
            var w3 := w1.(items := w1.items[sl := Substring(x, 0, w1.curCol) + pieces[0]] + pieces[1..] + [From(x, w1.curCol)],
                          curLine := w1.curLine + |pieces|, curCol := 0);
            && c < |d| && d[c] == x
            && Tidy(w3) && Doc(w3) == d[..c] + m + d[c + 1..]
            && BrokenAt(d, c, w1.curCol, pieces, Doc(w3))
  {
    var c, st, items := w1.curLine, w1.start, w1.items;
    var sl := |items| - 1;
    var x := items[sl];
    var a, b := Substring(x, 0, w1.curCol) + pieces[0], From(x, w1.curCol);
    var m := [a] + pieces[1..] + [b];
    assert c == st + sl;
    assert c < |Spliced(w1)| && Spliced(w1)[c] == x by {
      SplicedParts(w1);
      assert Spliced(w1)[st..st + |items|][sl] == x;
    }
    var it := items[..sl] + m;
    assert items[sl := a] + pieces[1..] + [b] == it by {
      LastRewritten(items, a, pieces[1..], b);
    }
    hide *;
    SplicedEdit(w1, sl, m, 0);
    DocIgnoresCursor(w1, it, c + |pieces|, 0);
    BrokenAtIntro(Spliced(w1), c, w1.curCol, pieces, Doc(w1.(items := it, curLine := c + |pieces|, curCol := 0)));
  }

  lemma {:induction false} BrokenAtIntro(d: seq<string>, c: nat, col: nat, pieces: seq<string>, e: seq<string>)
    requires c < |d| && |pieces| >= 1
    requires e == d[..c] + ([Substring(d[c], 0, col) + pieces[0]] + pieces[1..] + [From(d[c], col)]) + d[c + 1..]
    ensures BrokenAt(d, c, col, pieces, e)
  {
  }

  /** `e` is the document `d` with line `c` broken at column `col` around
      the lines `pieces`: the first piece ends the head of the broken line,
      and its tail becomes a line of its own after the last piece. */
  ghost predicate BrokenAt(d: seq<string>, c: nat, col: nat, pieces: seq<string>, e: seq<string>)
  {
    && c < |d| && |pieces| >= 1
    && e == d[..c] + ([Substring(d[c], 0, col) + pieces[0]] + pieces[1..] + [From(d[c], col)]) + d[c + 1..]
  }

  /** New lines put in before the cursor line when it is the last line of
      the splice. */
  lemma {:induction false} BreakBefore(w1: Window, pieces: seq<string>)
    requires w1.inSplice && Fits(w1) && Spans(w1) && CurLineInSplice(w1) && w1.curCol == 0 && |pieces| >= 1
    ensures var sl := |w1.items| - 1;
            var x := w1.items[sl];
            var w3 := w1.(items := w1.items[sl := Substring(x, 0, w1.curCol) + pieces[0]] + pieces[1..] + [From(x, w1.curCol)],
                          curLine := w1.curLine + |pieces|, curCol := 0);
            && Tidy(w3) && Doc(w3) == Spliced(w1)[..w1.curLine] + pieces + Spliced(w1)[w1.curLine..]
  {
    var x := w1.items[|w1.items| - 1];
    assert [Substring(x, 0, w1.curCol) + pieces[0]] + pieces[1..] + [From(x, w1.curCol)] == pieces + [x] by {
      assert Substring(x, 0, w1.curCol) + pieces[0] == pieces[0] && From(x, w1.curCol) == x;
      assert pieces == [pieces[0]] + pieces[1..];
    }
    BreakAt(w1, pieces);
    InsertLinesAtStartEnd(Spliced(w1), w1.curLine, x, pieces);
  }

  /** New lines added after the splice, where the cursor line begins. */
  lemma {:induction false} AddAfter(w1: Window, pieces: seq<string>)
    requires w1.inSplice && Fits(w1) && Coherent(w1) && !CurLineInSplice(w1)
    ensures var w3 := w1.(items := w1.items + pieces, curLine := w1.curLine + |pieces|);
            && Tidy(w3) && Doc(w3) == Spliced(w1)[..w1.curLine] + pieces + Spliced(w1)[w1.curLine..]
            && w1.curCol == 0
  {
    var items := w1.items;
    assert w1.curLine == w1.start + |items|;
    assert items[..|items|] == items;
    hide *;
    SplicedEdit(w1, |items|, pieces, 0);
    DocIgnoresCursor(w1, items[..|items|] + pieces, w1.curLine + |pieces|, w1.curCol);
  }

  lemma {:induction false} InsertLinesAtStartEnd(d: seq<string>, c: nat, x: string, pieces: seq<string>)
    requires c < |d| && d[c] == x
    ensures d[..c] + (pieces + [x]) + d[c + 1..] == d[..c] + pieces + d[c..]
  {
    assert d[c..] == [x] + d[c + 1..];
  }

  /** `insert(text, L)` with `L > 0` inside a line breaks the cursor line
      at the cursor column around the lines of the text; the cursor goes
      to the start of the line holding the rest of the broken line. It
      fails exactly when the cursor line is past the end of the document. */
  lemma {:induction false} InsertLinesSplit(w: Window, text: string, L: nat)
    requires Sound(w) && text != [] && L > 0 && w.curCol > 0
    ensures var r, d, c, pieces := Insert(w, text, L), Doc(w), w.curLine, TextLines(text);
            && |pieces| >= 1
            && (r.Ok? <==> c < |d|)
            && (r.Ok? ==> BrokenAt(d, c, w.curCol, pieces, Doc(r.value))
                          && Tidy(r.value) && r.value.curLine == c + |pieces| && r.value.curCol == 0)
  {
    assert Coherent(w);
    hide *;
    PiecesNonEmpty(text);
    OpenKeeps(w);
    InsertLinesSteps(w, text, L);
    if Open(w).Ok? {
      InsertLinesOpened(w, text, L);
    }
  }

  /** `InsertLinesSplit` once the splice is open. */
  lemma {:induction false} InsertLinesOpened(w: Window, text: string, L: nat)
    requires Sound(w) && text != [] && L > 0 && w.curCol > 0 && Open(w).Ok?
    ensures var r, d, c, pieces := Insert(w, text, L), Doc(w), w.curLine, TextLines(text);
            && r.Ok? && c < |d|
            && BrokenAt(d, c, w.curCol, pieces, Doc(r.value))
            && Tidy(r.value) && r.value.curLine == c + |pieces| && r.value.curCol == 0
  {
    assert Coherent(w);
    hide *;
    PiecesNonEmpty(text);
    InsertLinesSteps(w, text, L);
    OpenedInLine(w);
    var w1, pieces := Open(w).value, TextLines(text);
    var sl := |w1.items| - 1;
    var line := w1.items[sl];
    var w3 := w1.(items := w1.items[sl := Substring(line, 0, w1.curCol) + pieces[0]] + pieces[1..] + [From(line, w1.curCol)],
                  curLine := w1.curLine + |pieces|, curCol := 0);
    assert Insert(w, text, L) == Ok(w3);
    BreakAt(w1, pieces);
  }

  /** A splice opened while the cursor is inside a line of the document. */
  lemma {:induction false} OpenedWithin(w: Window)
    requires Sound(w) && w.curCol > 0 && w.curLine < |Doc(w)|
    ensures Open(w).Ok?
    ensures var w1 := Open(w).value;
            && w1.inSplice && Fits(w1) && Spans(w1) && CurLineInSplice(w1)
            && Spliced(w1) == Doc(w) && w1.curLine == w.curLine && w1.curCol == w.curCol
  {
    OpenKeeps(w);
    OpenedInLine(w);
  }

  lemma {:induction false} PiecesNonEmpty(text: string)
    ensures text != [] ==> |TextLines(text)| >= 1
  {
    TextLinesShape(text);
  }

  /** A splice opened while the cursor is inside a line ends with that
      line. */
  lemma {:induction false} OpenedInLine(w: Window)
    requires Sound(w) && w.curCol > 0 && Open(w).Ok?
    ensures var w1 := Open(w).value;
            && Doc(w1) == Spliced(w1) && Fits(w1) && Spans(w1) && CurLineInSplice(w1)
            && Doc(w1) == Doc(w) && w1.curLine == w.curLine && w1.curCol == w.curCol
  {
    OpenKeeps(w);
  }

  /** The steps of `removeLines(L)` with `L > 0`: open a splice, then take
      the lines out with the cursor line, after the splice, or joined to the
      cursor line. */
  lemma {:induction false} RemoveOpenFails(w: Window, L: nat)
    requires Coherent(w) && L > 0 && Open(w).Err?
    ensures RemoveLines(w, L).Err?
  {
  }

  lemma {:induction false} RemoveHeadSteps(w: Window, L: nat)
    requires Coherent(w) && L > 0 && Open(w).Ok?
    requires CurLineInSplice(Open(w).value) && Open(w).value.curCol == 0
    ensures var w1 := Open(w).value;
            RemoveLines(w, L) == Ok((HeadText(w1, L), HeadWindow(w1, L)))
  {
  }

  /** What `removeLines(L)` returns at the start of the last splice line:
      that line and the `L - 1` array lines after the splice. */
  function HeadText(w1: Window, L: nat): string
    requires |w1.items| > 0 && L > 0
  {
    w1.items[|w1.items| - 1] + NextLines(w1.(items := w1.items[..|w1.items| - 1]), L - 1)
  }

  /** The window `removeLines(L)` leaves at the start of the last splice
      line: that line dropped from the splice, `L - 1` more array lines
      taken out. */
  function HeadWindow(w1: Window, L: nat): Window
    requires |w1.items| > 0 && L > 0
  {
    w1.(items := w1.items[..|w1.items| - 1], removed := w1.removed + (L - 1))
  }

  lemma {:induction false} RemoveAfterSteps(w: Window, L: nat)
    requires Coherent(w) && L > 0 && Open(w).Ok? && !CurLineInSplice(Open(w).value)
    ensures var w1 := Open(w).value;
            RemoveLines(w, L) == Ok((NextLines(w1, L), AfterWindow(w1, L)))
  {
  }

  /** The window `removeLines(L)` leaves after the splice: `L` more array
      lines taken out. */
  function AfterWindow(w1: Window, L: nat): Window {
    w1.(removed := w1.removed + L)
  }

  lemma {:induction false} RemoveJoinedSteps(w: Window, L: nat)
    requires Coherent(w) && L > 0 && Open(w).Ok?
    requires CurLineInSplice(Open(w).value) && Open(w).value.curCol > 0
    ensures var w1 := Open(w).value;
            LineAt(w1.lines, w1.start + w1.removed + (L - 1)).Err? ==> RemoveLines(w, L).Err?
  {
  }

  lemma {:induction false} RemoveJoinedStepsOk(w: Window, L: nat, x: string)
    requires Coherent(w) && L > 0 && Open(w).Ok?
    requires CurLineInSplice(Open(w).value) && Open(w).value.curCol > 0
    requires var w1 := Open(w).value;
             var a := w1.start + w1.removed + (L - 1);
             && LineAt(w1.lines, a).Ok?
             && x == JoinedRaw(w1, L)
    ensures var w1 := Open(w).value;
            RemoveLines(w, L) == Ok((JoinedText(w1, L), JoinedWindow(w1, L, x)))
  {
  }

  /** The line `removeLines(L)` leaves inside a line: the last splice line
      up to the cursor, then the first array line after those removed. */
  function JoinedRaw(w1: Window, L: nat): string
    requires |w1.items| > 0 && L > 0 && w1.start + w1.removed + (L - 1) < |w1.lines|
  {
    Substring(w1.items[|w1.items| - 1], 0, w1.curCol) + w1.lines[w1.start + w1.removed + (L - 1)]
  }

  /** What `removeLines(L)` returns inside a line: the rest of the last
      splice line and the `L - 1` array lines after the splice. */
  function JoinedText(w1: Window, L: nat): string
    requires |w1.items| > 0 && L > 0
  {
    From(w1.items[|w1.items| - 1], w1.curCol) + NextLines(w1, L - 1)
  }

  /** The window `removeLines(L)` leaves inside a line: the last splice
      line replaced by `x`, and `L` more array lines taken out. */
  function JoinedWindow(w1: Window, L: nat, x: string): Window
    requires |w1.items| > 0
  {
    w1.(items := w1.items[|w1.items| - 1 := x], removed := w1.removed + L)
  }

  /** `removeLines(L)` with `L > 0` at the start of a line never fails;
      when the document has the `L` lines from the cursor line on, it
      returns their text and takes them out, leaving the cursor where it
      was. */
  lemma {:induction false} RemoveWholeLines(w: Window, L: nat)
    requires Sound(w) && L > 0 && w.curCol == 0
    ensures var r, d, c := RemoveLines(w, L), Doc(w), w.curLine;
            && r.Ok?
            && (c + L <= |d| ==>
                  && Removed(d, c, L, r.value.0, Doc(r.value.1))
                  && Tidy(r.value.1) && r.value.1.curLine == c && r.value.1.curCol == 0)
  {
    OpenKeeps(w);
    var w1 := Open(w).value;
    assert Doc(w1) == Spliced(w1) && Fits(w1) && Spans(w1) && Coherent(w1) && Coherent(w) && w1.inSplice;
    assert w1.curLine == w.curLine && w1.curCol == 0 && Doc(w1) == Doc(w);
    hide *;
    if CurLineInSplice(w1) {
      RemoveWholeHead(w, w1, L);
    } else {
      RemoveWholeAfter(w, w1, L);
    }
  }

  /** `e` is the document `d` with the `L` lines from line `c` on taken
      out; `text` is what was taken out. */
  ghost predicate Removed(d: seq<string>, c: nat, L: nat, text: string, e: seq<string>) {
    && c + L <= |d|
    && text == Join(d[c..c + L])
    && e == d[..c] + d[c + L..]
  }

  lemma {:induction false} RemovedIntro(d: seq<string>, c: nat, L: nat, text: string, e: seq<string>)
    requires c + L <= |d| && text == Join(d[c..c + L]) && e == d[..c] + d[c + L..]
    ensures Removed(d, c, L, text, e)
  {
  }

  lemma {:induction false} RemoveWholeHead(w: Window, w1: Window, L: nat)
    requires Coherent(w) && L > 0 && Open(w) == Ok(w1) && CurLineInSplice(w1) && w1.curCol == 0
    requires w1.inSplice && Fits(w1) && Spans(w1) && Doc(w1) == Doc(w) && w1.curLine == w.curLine
    ensures var r, d, c := RemoveLines(w, L), Doc(w), w.curLine;
            && r.Ok?
            && (c + L <= |d| ==>
                  && Removed(d, c, L, r.value.0, Doc(r.value.1))
                  && Tidy(r.value.1) && r.value.1.curLine == c && r.value.1.curCol == 0)
  {
    hide *;
    SplicedDoc(w1);
    SpliceHolds(w1);
    RemoveHeadSteps(w, L);
    if w.curLine + L <= |Doc(w)| {
      CutHeadText(w1, L);
      CutHeadDoc(w1, L);
      RemovedIntro(Spliced(w1), w1.curLine, L, HeadText(w1, L), Doc(HeadWindow(w1, L)));
      var r := RemoveLines(w, L);
      assert r.value.0 == HeadText(w1, L) && r.value.1 == HeadWindow(w1, L);
    }
  }

  lemma {:induction false} RemoveWholeAfter(w: Window, w1: Window, L: nat)
    requires Coherent(w) && L > 0 && Open(w) == Ok(w1) && !CurLineInSplice(w1) && w1.curCol == 0
    requires w1.inSplice && Fits(w1) && Coherent(w1) && Doc(w1) == Doc(w) && w1.curLine == w.curLine
    ensures var r, d, c := RemoveLines(w, L), Doc(w), w.curLine;
            && r.Ok?
            && (c + L <= |d| ==>
                  && Removed(d, c, L, r.value.0, Doc(r.value.1))
                  && Tidy(r.value.1) && r.value.1.curLine == c && r.value.1.curCol == 0)
  {
    hide *;
    SplicedDoc(w1);
    RemoveAfterSteps(w, L);
    if w.curLine + L <= |Doc(w)| {
      CutAfterText(w1, L);
      CutAfterDoc(w1, L);
      RemovedIntro(Spliced(w1), w1.curLine, L, NextLines(w1, L), Doc(AfterWindow(w1, L)));
      var r := RemoveLines(w, L);
      assert r.value.0 == NextLines(w1, L) && r.value.1 == AfterWindow(w1, L);
    }
  }

  /** The text of the lines taken out from the cursor line on, when it is
      the last line of the splice. */
  lemma {:induction false} CutHeadText(w1: Window, L: nat)
    requires w1.inSplice && Fits(w1) && Spans(w1) && CurLineInSplice(w1) && L > 0
    requires w1.curLine + L <= |Spliced(w1)|
    ensures HeadText(w1, L) == Join(Spliced(w1)[w1.curLine..w1.curLine + L])
  {
    var d, c := Spliced(w1), w1.curLine;
    var a := w1.start + w1.removed;
    hide *;
    HeadParts(w1, L);
    HeadSplit(d, c, L);
    HeadJoin(HeadText(w1, L), w1.items[|w1.items| - 1], NextLines(w1.(items := w1.items[..|w1.items| - 1]), L - 1),
             d, c, L, w1.lines[a..a + (L - 1)]);
  }

  /** The pieces `CutHeadText` puts together: the cursor line is the last
      splice line, and the lines after it are the array lines after the
      splice. */
  lemma {:induction false} HeadParts(w1: Window, L: nat)
    requires w1.inSplice && Fits(w1) && Spans(w1) && CurLineInSplice(w1) && L > 0
    requires w1.curLine + L <= |Spliced(w1)|
    ensures var items, d, c, a := w1.items, Spliced(w1), w1.curLine, w1.start + w1.removed;
            && |items| > 0 && c < c + L <= |d| && a + (L - 1) <= |w1.lines|
            && HeadText(w1, L) == items[|items| - 1] + NextLines(w1.(items := items[..|items| - 1]), L - 1)
            && d[c] == items[|items| - 1]
            && d[c + 1..c + L] == w1.lines[a..a + (L - 1)]
            && NextLines(w1.(items := items[..|items| - 1]), L - 1) == Join(w1.lines[a..a + (L - 1)])
  {
    var items, st := w1.items, w1.start;
    var sl, c := |items| - 1, w1.curLine;
    var w2 := w1.(items := items[..sl]);
    var a := st + w1.removed;
    assert c == st + sl && |items| > 0;
    assert st + |items| == c + 1 && st + |items| + (L - 1) == c + L;
    assert HeadText(w1, L) == items[sl] + NextLines(w2, L - 1);
    assert w2.start + w2.removed == a;
    hide Spliced, NextLines, Join, HeadText;
    SplicedAt(w1, sl);
    assert a + (L - 1) <= |w1.lines|;
    SplicedAfter(w1, L - 1);
    NextLinesSlice(w2, L - 1);
  }

  /** The last step of `CutHeadText`: the head line followed by the joined
      array lines is the join of the document lines. */
  lemma {:induction false} HeadJoin(h: string, x: string, n: string, d: seq<string>, c: nat, L: nat, tail: seq<string>)
    requires c < c + L <= |d|
    requires h == x + n && d[c] == x && n == Join(tail)
    requires d[c + 1..c + L] == tail && d[c..c + L] == [d[c]] + d[c + 1..c + L]
    ensures h == Join(d[c..c + L])
  {
    JoinCons(x, tail);
  }

  /** The document with the lines taken out from the cursor line on, when
      it is the last line of the splice. */
  lemma {:induction false} CutHeadDoc(w1: Window, L: nat)
    requires w1.inSplice && Fits(w1) && Spans(w1) && CurLineInSplice(w1) && L > 0
    requires w1.curLine + L <= |Spliced(w1)|
    ensures var d, c, w2 := Spliced(w1), w1.curLine, HeadWindow(w1, L);
            && Doc(w2) == d[..c] + d[c + L..] && Tidy(w2)
            && w2.curLine == w1.curLine && w2.curCol == w1.curCol
  {
    var items, st := w1.items, w1.start;
    var sl, d, c := |items| - 1, Spliced(w1), w1.curLine;
    var w2 := w1.(items := items[..sl], removed := w1.removed + (L - 1));
    assert c == st + sl && w1.inSplice && Fits(w1) && |items| > 0;
    assert HeadWindow(w1, L) == w2;
    assert items[..sl] + [] == items[..sl];
    hide *;
    SplicedAt(w1, sl);
    SplicedEdit(w1, sl, [], L - 1);
    SplicedDoc(w2);
  }

  /** The text of the lines taken out after the splice, where the cursor
      line begins. */
  lemma {:induction false} CutAfterText(w1: Window, L: nat)
    requires w1.inSplice && Fits(w1) && Coherent(w1) && !CurLineInSplice(w1)
    requires w1.curLine + L <= |Spliced(w1)|
    ensures NextLines(w1, L) == Join(Spliced(w1)[w1.curLine..w1.curLine + L])
  {
    assert w1.curLine == w1.start + |w1.items| && Fits(w1);
    hide *;
    SplicedAt(w1, 0);
    SplicedAfter(w1, L);
    NextLinesSlice(w1, L);
  }

  /** The document with the lines taken out after the splice. */
  lemma {:induction false} CutAfterDoc(w1: Window, L: nat)
    requires w1.inSplice && Fits(w1) && Coherent(w1) && !CurLineInSplice(w1)
    requires w1.curLine + L <= |Spliced(w1)|
    ensures var d, c, w2 := Spliced(w1), w1.curLine, AfterWindow(w1, L);
            && Doc(w2) == d[..c] + d[c + L..] && Tidy(w2)
            && w2.curLine == w1.curLine && w2.curCol == 0
  {
    hide Spliced, ArraySplice, Doc;
    var items := w1.items;
    assert AfterWindow(w1, L) == w1.(removed := w1.removed + L);
    assert w1.curLine == w1.start + |items| && w1.curCol == 0;
    assert items[..|items|] + [] == items;
    SplicedAt(w1, 0);
    SplicedEdit(w1, |items|, [], L);
    SplicedDoc(w1.(removed := w1.removed + L));
  }

  /** The splice lines sit in the document from the start of the splice on,
      which is as long as the array with the splice made. */
  lemma {:induction false} SplicedAt(w: Window, k: nat)
    requires Fits(w)
    ensures |Spliced(w)| == |w.lines| - w.removed + |w.items|
    ensures k < |w.items| ==> Spliced(w)[w.start + k] == w.items[k]
  {
    SplicedFits(w);
  }

  /** The array lines after those the splice replaces. */
  lemma {:induction false} NextLinesSlice(w: Window, k: nat)
    ensures w.start + w.removed + k <= |w.lines| ==>
              NextLines(w, k) == Join(w.lines[w.start + w.removed..w.start + w.removed + k])
  {
  }

  lemma {:induction false} HeadSplit(d: seq<string>, c: nat, L: nat)
    requires c < c + L <= |d|
    ensures d[c..c + L] == [d[c]] + d[c + 1..c + L]
  {
  }

  /** An open splice within the array shows its spliced lines. */
  /** A cursor line inside the splice is one of its lines. */
  lemma {:induction false} SpliceHolds(w: Window)
    requires Spans(w) && CurLineInSplice(w)
    ensures |w.items| > 0
  {
  }

  lemma {:induction false} SplicedDoc(w: Window)
    requires w.inSplice && Fits(w)
    ensures Doc(w) == Spliced(w) && Tidy(w)
  {
  }

  /** `removeLines(L)` with `L > 0` inside a line takes out the rest of the
      cursor line and the `L - 1` lines after it, and joins the head of the
      cursor line to the line after those. It fails exactly when that line
      is past the end of the document. */
  lemma {:induction false} RemoveJoinedLines(w: Window, L: nat)
    requires Sound(w) && L > 0 && w.curCol > 0
    ensures var r, d, c, col := RemoveLines(w, L), Doc(w), w.curLine, w.curCol;
            && (r.Ok? <==> c + L < |d|)
            && (r.Ok? ==>
                  && Joined(d, c, col, L, r.value.0, Doc(r.value.1))
                  && Tidy(r.value.1) && r.value.1.curLine == c && r.value.1.curCol == col)
  {
    hide *;
    if w.curLine + L < |Doc(w)| {
      RemoveJoinedOk(w, L);
    } else {
      RemoveJoinedFails(w, L);
    }
  }

  lemma {:induction false} RemoveJoinedFails(w: Window, L: nat)
    requires Sound(w) && L > 0 && w.curCol > 0 && w.curLine + L >= |Doc(w)|
    ensures RemoveLines(w, L).Err?
  {
    assert Coherent(w);
    hide *;
    OpenKeeps(w);
    if Open(w).Err? {
      RemoveOpenFails(w, L);
    } else {
      OpenedInLine(w);
      RemoveJoinedSteps(w, L);
      CutJoinedAt(Open(w).value, L);
    }
  }

  lemma {:induction false} RemoveJoinedOk(w: Window, L: nat)
    requires Sound(w) && L > 0 && w.curCol > 0 && w.curLine + L < |Doc(w)|
    ensures var r, d, c, col := RemoveLines(w, L), Doc(w), w.curLine, w.curCol;
            && r.Ok?
            && Joined(d, c, col, L, r.value.0, Doc(r.value.1))
            && Tidy(r.value.1) && r.value.1.curLine == c && r.value.1.curCol == col
  {
    assert Coherent(w);
    hide *;
    OpenedWithin(w);
    var w1 := Open(w).value;
    CutJoinedAt(w1, L);
    var x := JoinedLine(Spliced(w1), w1.curLine, w1.curCol, L);
    RemoveJoinedStepsOk(w, L, x);
    CutJoinedAll(w1, L, x);
    JoinedFinish(w, L, w1, x, RemoveLines(w, L));
  }

  lemma {:induction false} JoinedFinish(w: Window, L: nat, w1: Window, x: string, r: Result<(string, Window)>)
    requires |w1.items| > 0 && L > 0
    requires r == Ok((JoinedText(w1, L), JoinedWindow(w1, L, x)))
    requires var w3 := JoinedWindow(w1, L, x);
             && Joined(Spliced(w1), w1.curLine, w1.curCol, L, JoinedText(w1, L), Doc(w3))
             && Tidy(w3) && w3.curLine == w1.curLine && w3.curCol == w1.curCol
    requires Spliced(w1) == Doc(w) && w1.curLine == w.curLine && w1.curCol == w.curCol
    ensures && r.Ok?
            && Joined(Doc(w), w.curLine, w.curCol, L, r.value.0, Doc(r.value.1))
            && Tidy(r.value.1) && r.value.1.curLine == w.curLine && r.value.1.curCol == w.curCol
  {
  }

  /** The text and the window of `removeLines(L)` inside a line. */
  lemma {:induction false} CutJoinedAll(w1: Window, L: nat, x: string)
    requires w1.inSplice && Fits(w1) && Spans(w1) && CurLineInSplice(w1) && L > 0
    requires w1.curLine + L < |Spliced(w1)| && x == JoinedLine(Spliced(w1), w1.curLine, w1.curCol, L)
    ensures var w3 := JoinedWindow(w1, L, x);
            && Joined(Spliced(w1), w1.curLine, w1.curCol, L, JoinedText(w1, L), Doc(w3))
            && Tidy(w3) && w3.curLine == w1.curLine && w3.curCol == w1.curCol
  {
    SplicedAt(w1, 0);
    assert w1.curLine == w1.start + |w1.items| - 1 && |w1.items| > 0;
    assert w1.start + w1.removed + L <= |w1.lines|;
    CutJoinedText(w1, L);
    CutJoinedEnd(w1, x, L);
    JoinedIntro(Spliced(w1), w1.curLine, w1.curCol, L, x, JoinedText(w1, L), Doc(JoinedWindow(w1, L, x)));
  }

  /** Where the cursor line and the line it is joined to sit. */
  lemma {:induction false} CutJoinedAt(w1: Window, L: nat)
    requires w1.inSplice && Fits(w1) && Spans(w1) && CurLineInSplice(w1) && L > 0
    ensures var sl, d, c := |w1.items| - 1, Spliced(w1), w1.curLine;
            var a := w1.start + w1.removed + (L - 1);
            && c == w1.start + sl && c < |d| && d[c] == w1.items[sl]
            && (LineAt(w1.lines, a).Ok? <==> c + L < |d|)
            && (c + L < |d| ==> a < |w1.lines| && w1.lines[a] == d[c + L]
                                && JoinedLine(d, c, w1.curCol, L) == JoinedRaw(w1, L))
  {
    var items, st, a := w1.items, w1.start, w1.start + w1.removed + (L - 1);
    var sl, d, c := |items| - 1, Spliced(w1), w1.curLine;
    assert c == st + sl && |items| > 0 && Fits(w1);
    assert LineAt(w1.lines, a).Ok? <==> a < |w1.lines|;
    hide *;
    SplicedAt(w1, sl);
    if c + L < |d| {
      SplicedAfterAt(w1, L - 1);
      JoinedLineIs(d, c, w1.curCol, L);
      JoinedRawIs(w1, L);
    }
  }

  lemma {:induction false} JoinedRawIs(w1: Window, L: nat)
    requires |w1.items| > 0 && L > 0 && w1.start + w1.removed + (L - 1) < |w1.lines|
    ensures JoinedRaw(w1, L)
            == Substring(w1.items[|w1.items| - 1], 0, w1.curCol) + w1.lines[w1.start + w1.removed + (L - 1)]
  {
  }

  /** The text of the `L - 1` lines taken out after the cursor line. */
  lemma {:induction false} CutJoinedText(w1: Window, L: nat)
    requires w1.inSplice && Fits(w1) && Spans(w1) && CurLineInSplice(w1) && L > 0
    requires w1.curLine + L < |Spliced(w1)|
    ensures var d, c := Spliced(w1), w1.curLine;
            JoinedText(w1, L) == From(d[c], w1.curCol) + Join(d[c + 1..c + L])
  {
    hide Spliced, ArraySplice, NextLines, Join, From, Doc;
    var items, st := w1.items, w1.start;
    assert w1.curLine == st + |items| - 1 && |items| > 0;
    assert JoinedText(w1, L) == From(items[|items| - 1], w1.curCol) + NextLines(w1, L - 1);
    SplicedAt(w1, |items| - 1);
    SplicedAfter(w1, L - 1);
    NextLinesSlice(w1, L - 1);
  }

  /** The last line of the splice replaced by `x`, with `L` more array
      lines taken out. */
  lemma {:induction false} CutJoinedEnd(w1: Window, x: string, L: nat)
    requires w1.inSplice && Fits(w1) && |w1.items| > 0 && w1.start + w1.removed + L <= |w1.lines|
    requires w1.curLine == w1.start + |w1.items| - 1
    requires w1.curLine + L < |Spliced(w1)| && x == JoinedLine(Spliced(w1), w1.curLine, w1.curCol, L)
    ensures var w3, d, c := JoinedWindow(w1, L, x), Spliced(w1), w1.curLine;
            && Doc(w3) == d[..c] + [x] + d[c + 1 + L..] && Tidy(w3)
            && w3.curLine == w1.curLine && w3.curCol == w1.curCol
  {
    var items, sl := w1.items, |w1.items| - 1;
    var w3 := w1.(items := items[..sl] + [x], removed := w1.removed + L);
    assert JoinedWindow(w1, L, x) == w1.(items := items[sl := x], removed := w1.removed + L);
    var d, c := Spliced(w1), w1.curLine;
    hide *;
    UpdateLast(items, x);
    SplicedEdit(w1, sl, [x], L);
    SplicedDoc(w3);
  }

  lemma {:induction false} UpdateLast(items: seq<string>, x: string)
    requires items != []
    ensures items[|items| - 1 := x] == items[..|items| - 1] + [x]
  {
  }

  /** The `j`-th array line after those the splice replaces. */
  lemma {:induction false} SplicedAfterAt(w: Window, j: nat)
    requires Fits(w) && w.start + w.removed + j < |w.lines|
    ensures w.start + |w.items| + j < |Spliced(w)|
    ensures Spliced(w)[w.start + |w.items| + j] == w.lines[w.start + w.removed + j]
  {
    SplicedFits(w);
  }

  /** `e` is the document `d` with the rest of line `c` from column `col`
      and the `L - 1` lines after it taken out, and the head of line `c`
      joined to the line after those; `text` is what was taken out. */
  ghost predicate Joined(d: seq<string>, c: nat, col: nat, L: nat, text: string, e: seq<string>) {
    && 0 < L && c + L < |d|
    && text == From(d[c], col) + Join(d[c + 1..c + L])
    && e == d[..c] + [JoinedLine(d, c, col, L)] + d[c + L + 1..]
  }

  /** The head of line `c` up to column `col` joined to line `c + L`. */
  function JoinedLine(d: seq<string>, c: nat, col: nat, L: nat): string
    requires c + L < |d|
  {
    Substring(d[c], 0, col) + d[c + L]
  }

  lemma {:induction false} JoinedLineIs(d: seq<string>, c: nat, col: nat, L: nat)
    requires c + L < |d|
    ensures JoinedLine(d, c, col, L) == Substring(d[c], 0, col) + d[c + L]
  {
  }

  lemma {:induction false} JoinedIntro(d: seq<string>, c: nat, col: nat, L: nat, x: string, text: string, e: seq<string>)
    requires 0 < L && c + L < |d| && x == JoinedLine(d, c, col, L)
    requires text == From(d[c], col) + Join(d[c + 1..c + L])
    requires e == d[..c] + [x] + d[c + 1 + L..]
    ensures Joined(d, c, col, L, text, e)
  {
  }

  /** `hasMore()` says whether the cursor line lies in the document. */
  lemma {:induction false} HasMoreDoc(w: Window)
    requires Coherent(w) && Tidy(w)
    ensures HasMore(w) <==> w.curLine < |Doc(w)|
  {
    if w.inSplice {
      SplicedFits(w);
    }
  }
}
