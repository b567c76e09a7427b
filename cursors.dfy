/** `stringIterator` (Changeset.js lines 585-622): a cursor over a string
    that hands out or skips its characters from the front and keeps a count
    of newlines. */
module Cursors {
  import opened Results
  import opened Texts

  class StringIterator {
    const str: string
    var curIndex: nat
    /** `newLines`: counted at creation and lowered by every `take`. */
    var newLines: int
    /** The newlines inside the spans `skip` has passed over, which
        `newLines` still counts. */
    ghost var skipped: nat

    ghost predicate Valid()
      reads this
    {
      curIndex <= |str| && newLines == Count(str[curIndex..], '\n') + skipped
    }

    /** `stringIterator(str)`: `str.split('\n').length - 1` is the number of
        newlines in `str`. */
    constructor (s: string)
      ensures Valid() && str == s && curIndex == 0 && skipped == 0
      ensures newLines == Count(s, '\n')
    {
      str := s;
      curIndex := 0;
      newLines := Count(s, '\n');
      skipped := 0;
      new;
      assert s[0..] == s;
    }

    /** `remaining()`: the characters not yet taken or skipped. */
    function Remaining(): (n: nat)
      reads this
      requires Valid()
      ensures n == |str| - curIndex
      ensures n == 0 <==> curIndex == |str|
    {
      |str| - curIndex
    }

    /** `newlines()`: once nothing has been skipped, the newlines left. */
    function NewLines(): (n: int)
      reads this
      requires Valid()
      ensures n == Count(str[curIndex..], '\n') + skipped
      ensures skipped == 0 ==> n == Count(str[curIndex..], '\n')
    {
      newLines
    }

    /** `peek(n)`: the next `n` characters, failing when fewer are left. */
    function Peek(n: nat): (r: Result<string>)
      reads this
      requires Valid()
      ensures r.Err? <==> n > |str| - curIndex
      ensures r.Err? ==> r.error == OutOfBounds
      ensures r.Ok? ==> |r.value| == n && str[curIndex..] == r.value + str[curIndex + n..]
      ensures n == |str| - curIndex ==> r == Ok(str[curIndex..])
      ensures r == PeekAt(str, curIndex, n)
    {
      if n > |str| - curIndex then Err(OutOfBounds)
      else
        var s := str[curIndex..curIndex + n];
        assert str[curIndex..] == s + str[curIndex + n..];
        assert n == |str| - curIndex ==> s == str[curIndex..];
        Ok(s)
    }

    /** `take(n)`: what `peek(n)` returns; the cursor moves past it and the
        newline count drops by the newlines in it. */
    method Take(n: nat) returns (r: Result<string>)
      requires Valid()
      modifies this
      ensures Valid() && r == old(Peek(n)) && skipped == old(skipped)
      ensures r.Err? ==> curIndex == old(curIndex) && newLines == old(newLines)
      ensures r.Ok? ==> curIndex == old(curIndex) + n
                        && newLines == old(newLines) - Count(r.value, '\n')
    {
      if n > |str| - curIndex {
        return Err(OutOfBounds);
      }
      var s := str[curIndex..curIndex + n];
      assert str[curIndex..] == s + str[curIndex + n..];
      CountAppend(s, str[curIndex + n..], '\n');
      newLines := newLines - Count(s, '\n');
      curIndex := curIndex + n;
      return Ok(s);
    }

    /** `skip(n)`: moves the cursor like `take(n)`, but leaves the newline
        count alone. */
    method Skip(n: nat) returns (o: Outcome)
      requires Valid()
      modifies this
      ensures Valid() && newLines == old(newLines)
      ensures o.Fail? <==> old(Peek(n)).Err?
      ensures o.Fail? ==> o.error == OutOfBounds && curIndex == old(curIndex) && skipped == old(skipped)
      ensures o.Pass? ==> curIndex == old(curIndex) + n
                          && skipped == old(skipped) + Count(old(Peek(n)).value, '\n')
    {
      if n > |str| - curIndex {
        return Fail(OutOfBounds);
      }
      var s := str[curIndex..curIndex + n];
      assert str[curIndex..] == s + str[curIndex + n..];
      CountAppend(s, str[curIndex + n..], '\n');
      skipped := skipped + Count(s, '\n');
      curIndex := curIndex + n;
      return Pass;
    }
  }

  /** `peek(n)` on a string iterator standing at `pos`: the pure view of
      the class above, for callbacks that keep a cursor as a position. */
  function PeekAt(s: string, pos: int, n: nat): (r: Result<string>)
    ensures r.Err? <==> !(0 <= pos && pos + n <= |s|)
    ensures r.Err? ==> r.error == OutOfBounds
    ensures r.Ok? ==> r.value == s[pos..pos + n]
  {
    if 0 <= pos && pos + n <= |s| then Ok(s[pos..pos + n]) else Err(OutOfBounds)
  }
}
