/** Character counting and searching on JavaScript strings, as the
    changeset code uses them (`lastIndexOf`, `indexOf`, counting `\n`). */
module Texts {
  /** The number of times `c` occurs in `s`. */
  function Count(s: string, c: char): (n: nat)
    ensures n <= |s|
  {
    if s == [] then 0 else Count(s[..|s| - 1], c) + (if s[|s| - 1] == c then 1 else 0)
  }

  lemma {:induction false} CountAppend(a: string, b: string, c: char)
    ensures Count(a + b, c) == Count(a, c) + Count(b, c)
    decreases |b|
  {
    if b == [] {
      assert a + b == a;
    } else {
      CountAppend(a, b[..|b| - 1], c);
      assert (a + b)[..|a + b| - 1] == a + b[..|b| - 1];
    }
  }

  lemma {:induction false} CountOne(c: char)
    ensures Count([c], c) == 1
  {
    assert [c][..0] == [];
  }

  /** A string without `c` counts none of it, and the other way round. */
  lemma {:induction false} CountNone(s: string, c: char)
    ensures Count(s, c) == 0 <==> forall j :: 0 <= j < |s| ==> s[j] != c
  {
    if s != [] {
      var f := s[..|s| - 1];
      CountNone(f, c);
      if Count(s, c) == 0 {
        forall j | 0 <= j < |s| ensures s[j] != c {
          if j < |f| {
            assert s[j] == f[j];
          }
        }
      }
    }
  }

  /** `s.lastIndexOf(c)`: the last position holding `c`, or -1. */
  function LastIndexOf(s: string, c: char): (k: int)
    ensures -1 <= k < |s|
    ensures k >= 0 ==> s[k] == c
    ensures forall j :: k < j < |s| ==> s[j] != c
  {
    if s == [] then -1
    else if s[|s| - 1] == c then |s| - 1
    else
      var k := LastIndexOf(s[..|s| - 1], c);
      assert forall j :: k < j < |s| - 1 ==> s[..|s| - 1][j] == s[j];
      k
  }

  /** An index clamped into `0..n`, as JavaScript's string and array
      methods clamp their arguments. */
  function Clamp(x: int, n: nat): (c: nat)
    ensures c <= n
    ensures 0 <= x <= n ==> c == x
    ensures x > n ==> c == n
  {
    if x < 0 then 0 else if x > n then n else x
  }

  /** `s.substring(a, b)`: both ends clamped into the string, swapped when
      the first is the larger. */
  function Substring(s: string, a: int, b: int): (r: string)
    ensures |r| <= |s|
    ensures 0 <= a <= b <= |s| ==> r == s[a..b]
  {
    var x, y := Clamp(a, |s|), Clamp(b, |s|);
    if x <= y then s[x..y] else s[y..x]
  }
}
