/** Base-36 numerals (`parseNum` and `numToString`, Changeset.js lines 71-79).
    Every number of the wire format is written with the digits 0-9 and a-z. */
module Base36 {

  predicate IsDigit(c: char) {
    '0' <= c <= '9' || 'a' <= c <= 'z'
  }

  /** A non-empty run of base-36 digits, as matched by `[0-9a-z]+`. */
  predicate IsNumeral(s: string) {
    |s| > 0 && forall i :: 0 <= i < |s| ==> IsDigit(s[i])
  }

  function DigitValue(c: char): (d: nat)
    requires IsDigit(c)
    ensures d < 36
  {
    if c <= '9' then c as int - '0' as int else c as int - 'a' as int + 10
  }

  function DigitChar(d: nat): (c: char)
    requires d < 36
    ensures IsDigit(c) && DigitValue(c) == d
    ensures c == '0' <==> d == 0
  {
    if d < 10 then ('0' as int + d) as char else ('a' as int + d - 10) as char
  }

  /** `parseInt(s, 36)` on a string of digits. */
  function ParseNum(s: string): (n: nat)
    requires IsNumeral(s)
  {
    if |s| == 1 then DigitValue(s[0])
    else ParseNum(s[..|s| - 1]) * 36 + DigitValue(s[|s| - 1])
  }

  /** The value of the numeral `s[i..j]`, read in place. */
  function NumAt(s: string, i: nat, j: nat): (n: nat)
    requires i < j <= |s|
    requires forall k :: i <= k < j ==> IsDigit(s[k])
    decreases j
  {
    if j == i + 1 then DigitValue(s[i]) else NumAt(s, i, j - 1) * 36 + DigitValue(s[j - 1])
  }

  lemma {:induction false} NumAtParse(s: string, i: nat, j: nat)
    requires i < j <= |s|
    requires forall k :: i <= k < j ==> IsDigit(s[k])
    ensures IsNumeral(s[i..j]) && NumAt(s, i, j) == ParseNum(s[i..j])
    decreases j
  {
    if j > i + 1 {
      NumAtParse(s, i, j - 1);
      assert s[i..j][..j - i - 1] == s[i..j - 1];
    }
  }

  /** The canonical numeral of a non-negative number. */
  function Digits(n: nat): (s: string)
    ensures |s| > 0
  {
    if n < 36 then [DigitChar(n)] else Digits(n / 36) + [DigitChar(n % 36)]
  }

  lemma {:induction false} DigitsNumeral(n: nat)
    ensures IsNumeral(Digits(n))
    ensures Digits(n)[0] == '0' ==> n == 0
  {
    if n >= 36 {
      DigitsNumeral(n / 36);
      assert Digits(n)[0] == Digits(n / 36)[0];
    }
  }

  /** `num.toString(36)`: a minus sign precedes the digits of a negative number. */
  function NumToString(n: int): string {
    if n < 0 then "-" + Digits(-n) else Digits(n)
  }

  /** A numeral is canonical when it has no leading zero. */
  predicate Canonical(s: string) {
    IsNumeral(s) && (s[0] == '0' ==> |s| == 1)
  }

  lemma {:induction false} ParseDigits(n: nat)
    ensures IsNumeral(Digits(n)) && ParseNum(Digits(n)) == n
    ensures Canonical(Digits(n))
  {
    DigitsNumeral(n);
    if n >= 36 {
      ParseDigits(n / 36);
      var s := Digits(n);
      assert s[..|s| - 1] == Digits(n / 36);
    }
  }

  lemma {:induction false} ParseNumBound(s: string)
    requires Canonical(s) && |s| > 1
    ensures ParseNum(s) >= 36
  {
    var p := s[..|s| - 1];
    if |p| == 1 {
      assert p[0] == s[0] != '0';
    } else {
      assert Canonical(p);
      ParseNumBound(p);
    }
  }

  lemma {:induction false} DigitRoundTrip(c: char)
    requires IsDigit(c)
    ensures DigitChar(DigitValue(c)) == c
  {
  }

  lemma {:induction false} DivMod36(q: nat, d: nat)
    requires d < 36
    ensures (q * 36 + d) / 36 == q && (q * 36 + d) % 36 == d
  {
  }

  /** Reading a canonical numeral and writing it back gives it unchanged. */
  lemma {:induction false} DigitsParse(s: string)
    requires Canonical(s)
    ensures Digits(ParseNum(s)) == s
  {
    if |s| == 1 {
      DigitRoundTrip(s[0]);
    } else {
      var p := s[..|s| - 1];
      var c := s[|s| - 1];
      assert p[0] == s[0];
      if |p| > 1 { ParseNumBound(p); } else { assert p[0] == s[0] != '0'; }
      DigitsParse(p);
      DigitRoundTrip(c);
      var q := ParseNum(p);
      assert ParseNum(s) == q * 36 + DigitValue(c);
      DivMod36(q, DigitValue(c));
      assert Digits(ParseNum(s)) == Digits(q) + [c];
      assert s == p + [c];
    }
  }

  lemma {:induction false} SignInjective(x: string, y: string)
    requires "-" + x == "-" + y
    ensures x == y
  {
    assert x == ("-" + x)[1..];
    assert y == ("-" + y)[1..];
  }

  /** Two numbers with the same numeral are equal: the writer is injective. */
  lemma {:induction false} NumToStringInjective(m: int, n: int)
    requires NumToString(m) == NumToString(n)
    ensures m == n
  {
    if m < 0 && n < 0 {
      SignInjective(Digits(-m), Digits(-n));
      ParseDigits(-m); ParseDigits(-n);
    } else if m >= 0 && n >= 0 {
      ParseDigits(m); ParseDigits(n);
    } else {
      DigitsNumeral(if m < 0 then n else m);
    }
  }
}
