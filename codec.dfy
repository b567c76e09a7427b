/** The changeset wire format `Z:<oldLen><'>'|'<'><|delta|><ops>$<charBank>`:
    `unpack`, `pack`, `oldLen`, `newLen`, `identity` and `isIdentity`
    (Changeset.js lines 151-159, 1011-1048, 1450 and 1787-1790). */
module Codec {
  import opened Results
  import opened Base36
  import opened Ops
  import opened Texts

  /** An unpacked changeset.  `ops` is still the encoded op string. */
  datatype Changeset = Changeset(oldLen: int, newLen: int, ops: string, charBank: string)

  /** The first index at or after `i` holding `c`, or `|s|` if there is none. */
  function IndexFrom(s: string, c: char, i: nat): (k: nat)
    requires i <= |s|
    ensures i <= k <= |s| && (k < |s| ==> s[k] == c)
    decreases |s| - i
  {
    if i == |s| || s[i] == c then i else IndexFrom(s, c, i + 1)
  }

  lemma {:induction false} IndexFromFirst(s: string, c: char, i: nat, k: nat)
    requires i <= |s| && i <= k < IndexFrom(s, c, i)
    ensures s[k] != c
    decreases |s| - i
  {
    if k > i {
      IndexFromFirst(s, c, i + 1, k);
    }
  }

  lemma {:induction false} IndexFromRun(s: string, c: char, i: nat, j: nat)
    requires i <= j < |s| && s[j] == c
    requires forall k :: i <= k < j ==> s[k] != c
    ensures IndexFrom(s, c, i) == j
    decreases j - i
  {
    if i < j {
      IndexFromRun(s, c, i + 1, j);
    }
  }

  /** `String.prototype.indexOf(c)`: -1 when `c` does not occur. */
  function IndexOf(s: string, c: char): (k: int)
    ensures -1 <= k < |s|
    ensures k >= 0 ==> s[k] == c
    ensures k < 0 <==> Lacks(s, c)
  {
    var k := IndexFrom(s, c, 0);
    if k == |s| then
      assert Lacks(s, c) by {
        forall j | 0 <= j < |s| ensures s[j] != c { IndexFromFirst(s, c, 0, j); }
      }
      -1
    else k
  }

  /** The header `Z:<old>[><]<magnitude>` matched at the start of a
      changeset: the two numbers, the sign character and where it ends. */
  datatype Header = Header(oldLen: nat, sign: char, mag: nat, end: nat)

  /** `/Z:([0-9a-z]+)([><])([0-9a-z]+)|/` run on the changeset.  The regex
      is unanchored but its empty alternative matches at index 0, so only a
      header at the very start counts. */
  function ScanHeader(cs: string): (r: Option<Header>)
    ensures r.Some? ==> 2 < r.value.end <= |cs| && (r.value.sign == '>' || r.value.sign == '<')
  {
    if 2 < |cs| && cs[0] == 'Z' && cs[1] == ':' && IsDigit(cs[2]) then
      var first := ScanNum(cs, 2);
      var j := first.1;
      if j + 1 < |cs| && (cs[j] == '>' || cs[j] == '<') && IsDigit(cs[j + 1]) then
        var mag := ScanNum(cs, j + 1);
        Some(Header(first.0, cs[j], mag.0, mag.1))
      else None
    else None
  }

  /** `unpack(cs)`: fails unless `cs` starts with a header; the ops run to
      the first `$` (or the end) and the char bank follows it. */
  function Unpack(cs: string): (r: Result<Changeset>)
    ensures r.Err? <==> ScanHeader(cs).None?
    ensures r.Err? ==> r.error == NotAChangeset
    ensures r.Ok? ==> r.value.oldLen >= 0 && Lacks(r.value.ops, '$')
  {
    match ScanHeader(cs)
    case None => Err(NotAChangeset)
    case Some(h) =>
      var newLen := if h.sign == '>' then h.oldLen + h.mag else h.oldLen - h.mag;
      var found := IndexOf(cs, '$');
      var opsEnd := if found < 0 then |cs| else found;
      var ops := Substring(cs, h.end, opsEnd);
      UnpackOpsNoDollar(cs, h.end, opsEnd);
      Ok(Changeset(h.oldLen, newLen, ops, Substring(cs, opsEnd + 1, |cs|)))
  }

  lemma {:induction false} UnpackOpsNoDollar(cs: string, a: nat, e: int)
    requires ScanHeader(cs).Some? && a == ScanHeader(cs).value.end
    requires e == (if IndexOf(cs, '$') < 0 then |cs| else IndexOf(cs, '$'))
    ensures a <= e && Lacks(Substring(cs, a, e), '$')
  {
    var k := IndexFrom(cs, '$', 0);
    HeaderNoDollar(cs);
    forall j | 0 <= j < k ensures cs[j] != '$' { IndexFromFirst(cs, '$', 0, j); }
  }

  /** The header is made of `Z`, `:`, digits and a sign, never `$`. */
  lemma {:induction false} HeaderNoDollar(cs: string)
    requires ScanHeader(cs).Some?
    ensures forall k :: 0 <= k < ScanHeader(cs).value.end ==> cs[k] != '$'
  {
    var j := DigitEnd(cs, 2);
    DigitEndAll(cs, 2);
    DigitEndAll(cs, j + 1);
  }

  /** `exports.oldLen(cs)`. */
  function OldLen(cs: string): (r: Result<int>)
    ensures r.Ok? <==> Unpack(cs).Ok?
    ensures r.Ok? ==> r.value == Unpack(cs).value.oldLen
  {
    var c :- Unpack(cs);
    Ok(c.oldLen)
  }

  /** `exports.newLen(cs)`. */
  function NewLen(cs: string): (r: Result<int>)
    ensures r.Ok? <==> Unpack(cs).Ok?
    ensures r.Ok? ==> r.value == Unpack(cs).value.newLen
  {
    var c :- Unpack(cs);
    Ok(c.newLen)
  }

  /** The `>delta` or `<delta` part of a header. */
  function LenDiffString(oldLen: int, newLen: int): string {
    var d := newLen - oldLen;
    if d >= 0 then ">" + NumToString(d) else "<" + NumToString(-d)
  }

  /** `Z:<oldLen><'>'|'<'><|delta|>`. */
  function HeaderString(oldLen: int, newLen: int): string {
    "Z:" + NumToString(oldLen) + LenDiffString(oldLen, newLen)
  }

  /** `pack(oldLen, newLen, opsStr, bank)`: the header, the ops, `$` and
      the char bank, joined. */
  function Pack(oldLen: int, newLen: int, ops: string, bank: string): string {
    HeaderString(oldLen, newLen) + (ops + ("$" + bank))
  }

  function PackChangeset(c: Changeset): string {
    Pack(c.oldLen, c.newLen, c.ops, c.charBank)
  }

  /** `identity(N)`: keeps all N characters, written with no ops at all. */
  function Identity(n: int): string {
    Pack(n, n, "", "")
  }

  /** `isIdentity(cs)`: no ops and equal lengths; throws what unpack throws. */
  function IsIdentity(cs: string): (r: Result<bool>)
    ensures r.Ok? <==> Unpack(cs).Ok?
    ensures r.Ok? ==> (r.value <==> Unpack(cs).value.ops == [] && Unpack(cs).value.oldLen == Unpack(cs).value.newLen)
  {
    var c :- Unpack(cs);
    Ok(c.ops == "" && c.oldLen == c.newLen)
  }

  // ---------------------------------------------------------------- round trip

  lemma {:induction false} NoDollarAt(s: string, p: string, rest: string, k: nat)
    requires s == p + rest && Lacks(p, '$') && k < |p|
    ensures s[k] != '$'
  {
    assert s[k] == p[k];
  }

  /** A header assembled from its parts scans as that header. */
  lemma {:induction false} ScanHeaderParts(s: string, oldLen: nat, sign: char, mag: nat, p: nat, e: nat)
    requires 2 < |s| && s[0] == 'Z' && s[1] == ':' && At(s, 2, Digits(oldLen))
    requires p == 2 + |Digits(oldLen)| && p < |s| && s[p] == sign && (sign == '>' || sign == '<')
    requires At(s, p + 1, Digits(mag)) && e == p + 1 + |Digits(mag)| && StopsAt(s, e)
    ensures ScanHeader(s) == Some(Header(oldLen, sign, mag, e))
  {
    ScanNumDigits(s, 2, oldLen);
    ScanNumDigits(s, p + 1, mag);
  }

  /** The sign and magnitude a header gives to `newLen - oldLen`. */
  function Sign(oldLen: int, newLen: int): char {
    if newLen - oldLen >= 0 then '>' else '<'
  }

  function Mag(oldLen: int, newLen: int): nat {
    if newLen - oldLen >= 0 then newLen - oldLen else oldLen - newLen
  }

  lemma {:induction false} HeaderShape(oldLen: nat, newLen: int)
    ensures HeaderString(oldLen, newLen)
            == "Z:" + (Digits(oldLen) + ([Sign(oldLen, newLen)] + Digits(Mag(oldLen, newLen))))
    ensures Lacks(HeaderString(oldLen, newLen), '$')
  {
    var D1, D2, sg := Digits(oldLen), Digits(Mag(oldLen, newLen)), Sign(oldLen, newLen);
    assert LenDiffString(oldLen, newLen) == [sg] + D2;
    AppendAssoc("Z:", D1, [sg] + D2);
    NumNoDollar(oldLen);
    NumNoDollar(Mag(oldLen, newLen));
    LacksAppend([sg], D2, '$');
    LacksAppend(D1, [sg] + D2, '$');
    LacksAppend("Z:", D1 + ([sg] + D2), '$');
  }

  /** The header of a packed changeset scans back to its lengths. */
  lemma {:induction false} ScanHeaderPack(s: string, oldLen: nat, sign: char, mag: nat, R: string, e: nat)
    requires At(s, 0, "Z:" + (Digits(oldLen) + ([sign] + (Digits(mag) + R)))) && StopsAt(s, |s|)
    requires |s| == 2 + |Digits(oldLen)| + 1 + |Digits(mag)| + |R|
    requires sign == '>' || sign == '<'
    requires R == [] || !IsDigit(R[0])
    requires e == 3 + |Digits(oldLen)| + |Digits(mag)|
    ensures ScanHeader(s) == Some(Header(oldLen, sign, mag, e))
  {
    var D1, D2 := Digits(oldLen), Digits(mag);
    AtParts(s, 0, "Z:", D1, sign, D2 + R);
    AtSplitStops(s, 3 + |D1|, D2, R);
    AtIndex(s, 0, "Z:", 0);
    AtIndex(s, 0, "Z:", 1);
    ScanHeaderParts(s, oldLen, sign, mag, 2 + |D1|, 3 + |D1| + |D2|);
  }

  lemma {:induction false} AtEq(s: string, w: string)
    requires s == w
    ensures At(s, 0, w) && StopsAt(s, |s|)
  {
  }

  lemma {:induction false} HeaderThen(oldLen: nat, newLen: int, R: string)
    ensures HeaderString(oldLen, newLen) + R
            == "Z:" + (Digits(oldLen) + ([Sign(oldLen, newLen)] + (Digits(Mag(oldLen, newLen)) + R)))
    ensures |HeaderString(oldLen, newLen)| == 3 + |Digits(oldLen)| + |Digits(Mag(oldLen, newLen))|
  {
    var D1, D2, sg := Digits(oldLen), Digits(Mag(oldLen, newLen)), Sign(oldLen, newLen);
    HeaderShape(oldLen, newLen);
    AppendAssoc([sg], D2, R);
    AppendAssoc(D1, [sg] + D2, R);
    AppendAssoc("Z:", D1 + ([sg] + D2), R);
  }

  /** A header followed by text that does not start with a digit scans as
      that header. */
  lemma {:induction false} ScanHeaderThen(s: string, oldLen: nat, newLen: int, R: string, e: nat)
    requires s == HeaderString(oldLen, newLen) + R && e == |HeaderString(oldLen, newLen)|
    requires R == [] || !IsDigit(R[0])
    ensures ScanHeader(s) == Some(Header(oldLen, Sign(oldLen, newLen), Mag(oldLen, newLen), e))
  {
    HeaderThen(oldLen, newLen, R);
    AtEq(s, "Z:" + (Digits(oldLen) + ([Sign(oldLen, newLen)] + (Digits(Mag(oldLen, newLen)) + R))));
    ScanHeaderPack(s, oldLen, Sign(oldLen, newLen), Mag(oldLen, newLen), R, e);
  }

  /** `unpack` of a changeset whose header, first `$` and two pieces are known. */
  lemma {:induction false} UnpackFound(cs: string, h: Header, e: nat, newLen: int, ops: string, bank: string)
    requires ScanHeader(cs) == Some(h) && IndexOf(cs, '$') == e
    requires newLen == (if h.sign == '>' then h.oldLen + h.mag else h.oldLen - h.mag)
    requires Substring(cs, h.end, e) == ops && Substring(cs, e + 1, |cs|) == bank
    ensures Unpack(cs) == Ok(Changeset(h.oldLen, newLen, ops, bank))
  {
  }

  /** Where `unpack` finds the header, the `$` and the two pieces of a
      packed changeset. */
  lemma {:induction false} PackPieces(oldLen: nat, newLen: int, ops: string, bank: string)
    requires Lacks(ops, '$')
    requires ops == [] || !IsDigit(ops[0])
    ensures var s, H := Pack(oldLen, newLen, ops, bank), HeaderString(oldLen, newLen);
            && ScanHeader(s) == Some(Header(oldLen, Sign(oldLen, newLen), Mag(oldLen, newLen), |H|))
            && IndexOf(s, '$') == |H| + |ops|
            && Substring(s, |H|, |H| + |ops|) == ops
            && Substring(s, |H| + |ops| + 1, |s|) == bank
  {
    var H := HeaderString(oldLen, newLen);
    var R := ops + ("$" + bank);
    var s := Pack(oldLen, newLen, ops, bank);
    assert s == H + R;
    hide *;
    assert R == [] || !IsDigit(R[0]) by {
      if ops == [] { assert R[0] == '$'; } else { assert R[0] == ops[0]; }
    }
    assert ScanHeader(s) == Some(Header(oldLen, Sign(oldLen, newLen), Mag(oldLen, newLen), |H|)) by {
      ScanHeaderThen(s, oldLen, newLen, R, |H|);
    }
    assert Lacks(H, '$') by {
      HeaderShape(oldLen, newLen);
    }
    AppendAssoc(H, ops, "$" + bank);
    UnpackSplit(s, H, ops, bank);
  }

  /** Unpacking a packed changeset gives back its parts, provided the op
      string holds no `$` and does not begin with a digit (which the header's
      last numeral would swallow). */
  lemma {:induction false} UnpackPack(oldLen: nat, newLen: int, ops: string, bank: string)
    requires Lacks(ops, '$')
    requires ops == [] || !IsDigit(ops[0])
    ensures Unpack(Pack(oldLen, newLen, ops, bank)) == Ok(Changeset(oldLen, newLen, ops, bank))
  {
    PackPieces(oldLen, newLen, ops, bank);
    var H := HeaderString(oldLen, newLen);
    var h := Header(oldLen, Sign(oldLen, newLen), Mag(oldLen, newLen), |H|);
    UnpackFound(Pack(oldLen, newLen, ops, bank), h, |H| + |ops|, newLen, ops, bank);
  }

  /** Where the ops and the bank of `H + ops + "$" + bank` are found. */
  lemma {:induction false} UnpackSplit(s: string, H: string, ops: string, bank: string)
    requires s == (H + ops) + ("$" + bank) && Lacks(H, '$') && Lacks(ops, '$')
    ensures IndexOf(s, '$') == |H| + |ops|
    ensures Substring(s, |H|, |H| + |ops|) == ops
    ensures Substring(s, |H| + |ops| + 1, |s|) == bank
  {
    var P := H + ops;
    LacksAppend(H, ops, '$');
    forall k | 0 <= k < |P| ensures s[k] != '$' { NoDollarAt(s, P, "$" + bank, k); }
    assert s[|P|] == '$';
    IndexFromRun(s, '$', 0, |P|);
    assert s[|H|..|H| + |ops|] == ops;
    assert s[|P| + 1..] == bank;
  }

  /** Unpacking then packing again changes nothing further: the second
      unpack sees the same changeset. */
  lemma {:induction false} UnpackNormal(cs: string)
    requires Unpack(cs).Ok?
    requires Unpack(cs).value.ops == [] || !IsDigit(Unpack(cs).value.ops[0])
    ensures Unpack(PackChangeset(Unpack(cs).value)) == Unpack(cs)
  {
    var c := Unpack(cs).value;
    UnpackPack(c.oldLen, c.newLen, c.ops, c.charBank);
  }

  /** `isIdentity(identity(N))` for every N >= 0. */
  lemma {:induction false} IdentityIsIdentity(n: nat)
    ensures Unpack(Identity(n)) == Ok(Changeset(n, n, "", ""))
    ensures IsIdentity(Identity(n)) == Ok(true)
  {
    UnpackPack(n, n, "", "");
  }

  /** A changeset whose ops are encoded by the op writer unpacks to them. */
  lemma {:induction false} UnpackPackOps(oldLen: nat, newLen: int, ops: seq<Op>, bank: string)
    requires NoNulls(ops)
    ensures Unpack(Pack(oldLen, newLen, OpsToString(ops), bank))
            == Ok(Changeset(oldLen, newLen, OpsToString(ops), bank))
  {
    OpsToStringNoDollar(ops);
    OpsToStringHead(ops);
    UnpackPack(oldLen, newLen, OpsToString(ops), bank);
  }
}
