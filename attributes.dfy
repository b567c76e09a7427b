/** The attribute algebra of Changeset.js: `composeAttributes` (lines
    1130-1183), `followAttributes` (2245-2279), `makeAttribsString`
    (1881-1901) and `attributeTester` (1437-1444).  An attribute string
    `*3*f*1c` is the list of its numbers; the pool gives each number a pair. */
module Attributes {
  import opened Results
  import opened Pools

  // ------------------------------------------------------------ ordering

  /** JavaScript's `a <= b` on strings: lexicographic by character code. */
  predicate LexLe(a: string, b: string)
    decreases |a|
  {
    if a == [] then true
    else if b == [] then false
    else if a[0] != b[0] then a[0] < b[0]
    else LexLe(a[1..], b[1..])
  }

  lemma {:induction false} LexLeTotal(a: string, b: string)
    ensures LexLe(a, b) || LexLe(b, a)
    decreases |a|
  {
    if a != [] && b != [] && a[0] == b[0] {
      LexLeTotal(a[1..], b[1..]);
    }
  }

  lemma {:induction false} LexLeTrans(a: string, b: string, c: string)
    requires LexLe(a, b) && LexLe(b, c)
    ensures LexLe(a, c)
    decreases |a|
  {
    if a != [] && b != [] && c != [] && a[0] == b[0] && b[0] == c[0] {
      LexLeTrans(a[1..], b[1..], c[1..]);
    }
  }

  /** `String(pair)`, which the default `Array.prototype.sort` compares. */
  function PairString(a: Attrib): string {
    a.key + "," + a.value
  }

  predicate PairLe(a: Attrib, b: Attrib) {
    LexLe(PairString(a), PairString(b))
  }

  predicate Sorted(s: seq<Attrib>) {
    forall i, j :: 0 <= i < j < |s| ==> PairLe(s[i], s[j])
  }

  /** Places `x` after every element not above it, so equal elements keep
      their order, as the stable `Array.prototype.sort` does. */
  function Insert(s: seq<Attrib>, x: Attrib): (r: seq<Attrib>)
    ensures |r| == |s| + 1
    ensures multiset(r) == multiset(s) + multiset{x}
    decreases |s|
  {
    if s == [] || PairLe(s[|s| - 1], x) then s + [x]
    else
      var front := s[..|s| - 1];
      assert s == front + [s[|s| - 1]];
      Insert(front, x) + [s[|s| - 1]]
  }

  /** `atts.sort()`: the pairs ordered by their string form. */
  function SortPairs(s: seq<Attrib>): (r: seq<Attrib>)
    ensures |r| == |s|
    ensures multiset(r) == multiset(s)
  {
    if s == [] then []
    else
      var front := s[..|s| - 1];
      assert s == front + [s[|s| - 1]];
      Insert(SortPairs(front), s[|s| - 1])
  }

  lemma {:induction false} InsertSorted(s: seq<Attrib>, x: Attrib)
    requires Sorted(s)
    ensures Sorted(Insert(s, x))
    decreases |s|
  {
    var r := Insert(s, x);
    if s == [] {
    } else if PairLe(s[|s| - 1], x) {
      forall i, j | 0 <= i < j < |r| ensures PairLe(r[i], r[j]) {
        if j == |s| && i < |s| - 1 {
          LexLeTrans(PairString(s[i]), PairString(s[|s| - 1]), PairString(x));
        }
      }
    } else {
      var front := s[..|s| - 1];
      var l := s[|s| - 1];
      var m := Insert(front, x);
      assert Sorted(front);
      InsertSorted(front, x);
      LexLeTotal(PairString(l), PairString(x));
      assert r == m + [l];
      forall i, j | 0 <= i < j < |r| ensures PairLe(r[i], r[j]) {
        if j == |m| {
          assert r[i] == m[i] && r[i] in multiset(m);
          if r[i] != x {
            assert r[i] in multiset(front);
            var k :| 0 <= k < |front| && front[k] == r[i];
            assert s[k] == r[i];
          }
        } else {
          assert r[i] == m[i] && r[j] == m[j];
        }
      }
    }
  }

  /** The sort leaves its output ordered. */
  lemma {:induction false} SortPairsSorted(s: seq<Attrib>)
    ensures Sorted(SortPairs(s))
  {
    if s != [] {
      SortPairsSorted(s[..|s| - 1]);
      InsertSorted(SortPairs(s[..|s| - 1]), s[|s| - 1]);
    }
  }

  // ------------------------------------------------------------ pair lists as maps

  /** What a pair list says: each key's value (the last one, should a key
      repeat). */
  function AsMap(s: seq<Attrib>): (m: map<string, string>)
  {
    if s == [] then map[]
    else AsMap(s[..|s| - 1])[s[|s| - 1].key := s[|s| - 1].value]
  }

  /** No key occurs twice. */
  predicate UniqueKeys(s: seq<Attrib>) {
    s == [] || (UniqueKeys(s[..|s| - 1]) && s[|s| - 1].key !in AsMap(s[..|s| - 1]))
  }

  /** What a list with one more pair at the end says. */
  lemma {:induction false} SnocMap(s: seq<Attrib>, l: Attrib)
    ensures (s + [l])[..|s|] == s
    ensures UniqueKeys(s + [l]) <==> UniqueKeys(s) && l.key !in AsMap(s)
    ensures AsMap(s + [l]) == AsMap(s)[l.key := l.value]
  {
    assert (s + [l])[..|s + [l]| - 1] == s;
  }

  lemma {:induction false} MapSwap(m: map<string, string>, a: string, va: string, b: string, vb: string)
    requires a != b
    ensures m[a := va][b := vb] == m[b := vb][a := va]
  {
  }

  lemma {:induction false} MapRemoveSwap(m: map<string, string>, k: string, a: string, v: string)
    requires a != k
    ensures (m - {k})[a := v] == m[a := v] - {k}
  {
  }

  lemma {:induction false} InsertMap(s: seq<Attrib>, x: Attrib)
    requires UniqueKeys(s) && x.key !in AsMap(s)
    ensures UniqueKeys(Insert(s, x))
    ensures AsMap(Insert(s, x)) == AsMap(s)[x.key := x.value]
    decreases |s|
  {
    var r := Insert(s, x);
    if s == [] || PairLe(s[|s| - 1], x) {
      assert r == s + [x];
      SnocMap(s, x);
    } else {
      var front := s[..|s| - 1];
      var l := s[|s| - 1];
      var m := Insert(front, x);
      assert r == m + [l];
      assert s == front + [l];
      SnocMap(front, l);
      InsertMap(front, x);
      SnocMap(m, l);
      MapSwap(AsMap(front), x.key, x.value, l.key, l.value);
    }
  }

  /** Sorting keeps what the list says. */
  lemma {:induction false} SortPairsMap(s: seq<Attrib>)
    requires UniqueKeys(s)
    ensures UniqueKeys(SortPairs(s)) && AsMap(SortPairs(s)) == AsMap(s)
  {
    if s != [] {
      var front := s[..|s| - 1];
      SortPairsMap(front);
      InsertMap(SortPairs(front), s[|s| - 1]);
    }
  }

  /** The position of the first pair with key `k`, or `|s|`. */
  function FindKey(s: seq<Attrib>, k: string, i: nat): (r: nat)
    requires i <= |s|
    ensures i <= r <= |s|
    ensures r < |s| ==> s[r].key == k
    ensures forall j :: i <= j < r ==> s[j].key != k
    decreases |s| - i
  {
    if i == |s| then |s| else if s[i].key == k then i else FindKey(s, k, i + 1)
  }

  lemma {:induction false} AsMapKeys(s: seq<Attrib>, k: string)
    ensures k in AsMap(s) <==> exists i :: 0 <= i < |s| && s[i].key == k
  {
    if s != [] {
      var front := s[..|s| - 1];
      AsMapKeys(front, k);
      if k in AsMap(front) {
        var i :| 0 <= i < |front| && front[i].key == k;
        assert s[i].key == k;
      }
      if exists i :: 0 <= i < |s| && s[i].key == k {
        var i :| 0 <= i < |s| && s[i].key == k;
        if i < |front| { assert front[i].key == k; }
      }
    }
  }

  /** Giving the `i`th pair a new value changes that key's value only. */
  lemma {:induction false} AsMapSet(s: seq<Attrib>, i: nat, v: string)
    requires UniqueKeys(s) && i < |s|
    ensures UniqueKeys(s[i := Attrib(s[i].key, v)])
    ensures AsMap(s[i := Attrib(s[i].key, v)]) == AsMap(s)[s[i].key := v]
    decreases |s|
  {
    var k := s[i].key;
    var t := s[i := Attrib(k, v)];
    var front := s[..|s| - 1];
    var l := s[|s| - 1];
    assert s == front + [l];
    SnocMap(front, l);
    if i == |s| - 1 {
      assert t == front + [Attrib(k, v)];
      SnocMap(front, Attrib(k, v));
    } else {
      var u := front[i := Attrib(k, v)];
      AsMapSet(front, i, v);
      assert t == u + [l];
      AsMapKeys(front, k);
      assert front[i].key == k;
      SnocMap(u, l);
      MapSwap(AsMap(front), k, v, l.key, l.value);
    }
  }

  /** Taking the `i`th pair out removes its key. */
  lemma {:induction false} AsMapRemove(s: seq<Attrib>, i: nat)
    requires UniqueKeys(s) && i < |s|
    ensures UniqueKeys(s[..i] + s[i + 1..])
    ensures AsMap(s[..i] + s[i + 1..]) == AsMap(s) - {s[i].key}
    decreases |s|
  {
    hide AsMap, UniqueKeys;
    var k := s[i].key;
    var t := s[..i] + s[i + 1..];
    var front := s[..|s| - 1];
    var l := s[|s| - 1];
    assert s == front + [l];
    SnocMap(front, l);
    if i == |s| - 1 {
      assert t == front;
    } else {
      var u := front[..i] + front[i + 1..];
      AsMapRemove(front, i);
      assert t == u + [l];
      assert k in AsMap(front) by {
        AsMapKeys(front, k);
        assert front[i].key == k;
      }
      SnocMap(u, l);
      MapRemoveSwap(AsMap(front), k, l.key, l.value);
    }
  }

  /** Adding a pair for an absent key to the end. */
  lemma {:induction false} AsMapPush(s: seq<Attrib>, x: Attrib)
    requires UniqueKeys(s) && FindKey(s, x.key, 0) == |s|
    ensures UniqueKeys(s + [x]) && AsMap(s + [x]) == AsMap(s)[x.key := x.value]
  {
    assert (s + [x])[..|s|] == s;
    AsMapKeys(s, x.key);
  }

  // ------------------------------------------------------------ composeAttributes

  /** What one pair of `att2` does to the pairs collected so far: it gives an
      existing key its value, or removes the key when the value is empty and
      the result is not a mutation; a new key is added under the same rule. */
  function ComposeStep(atts: seq<Attrib>, pair: Attrib, isMutation: bool): seq<Attrib> {
    var i := FindKey(atts, pair.key, 0);
    var keep := pair.value != "" || isMutation;
    if i < |atts| then
      if keep then atts[i := Attrib(atts[i].key, pair.value)] else atts[..i] + atts[i + 1..]
    else if keep then atts + [pair]
    else atts
  }

  function ComposeAll(atts: seq<Attrib>, pairs: seq<Attrib>, isMutation: bool): seq<Attrib> {
    if pairs == [] then atts
    else ComposeStep(ComposeAll(atts, pairs[..|pairs| - 1], isMutation), pairs[|pairs| - 1], isMutation)
  }

  /** The meaning of composing: each pair of `att2` in turn sets its key, or
      clears it when its value is empty and the result is not a mutation. */
  function MapCompose(m: map<string, string>, pairs: seq<Attrib>, isMutation: bool): map<string, string> {
    if pairs == [] then m
    else
      var m' := MapCompose(m, pairs[..|pairs| - 1], isMutation);
      var p := pairs[|pairs| - 1];
      if p.value != "" || isMutation then m'[p.key := p.value] else m' - {p.key}
  }

  lemma {:induction false} ComposeStepMap(atts: seq<Attrib>, pair: Attrib, isMutation: bool)
    requires UniqueKeys(atts)
    ensures UniqueKeys(ComposeStep(atts, pair, isMutation))
    ensures AsMap(ComposeStep(atts, pair, isMutation))
            == if pair.value != "" || isMutation then AsMap(atts)[pair.key := pair.value]
               else AsMap(atts) - {pair.key}
  {
    var i := FindKey(atts, pair.key, 0);
    if i < |atts| {
      if pair.value != "" || isMutation {
        AsMapSet(atts, i, pair.value);
      } else {
        AsMapRemove(atts, i);
      }
    } else {
      AsMapKeys(atts, pair.key);
      if pair.value != "" || isMutation {
        AsMapPush(atts, pair);
      }
    }
  }

  /** The list manipulation of `composeAttributes` computes the map update
      its comments describe. */
  lemma {:induction false} ComposeAllMap(atts: seq<Attrib>, pairs: seq<Attrib>, isMutation: bool)
    requires UniqueKeys(atts)
    ensures UniqueKeys(ComposeAll(atts, pairs, isMutation))
    ensures AsMap(ComposeAll(atts, pairs, isMutation)) == MapCompose(AsMap(atts), pairs, isMutation)
  {
    if pairs != [] {
      ComposeAllMap(atts, pairs[..|pairs| - 1], isMutation);
      ComposeStepMap(ComposeAll(atts, pairs[..|pairs| - 1], isMutation), pairs[|pairs| - 1], isMutation);
    }
  }

  // ------------------------------------------------------------ numbers and pairs

  /** The pairs a list of attribute numbers names; an unknown number fails
      (the source then reads a field of `undefined`). */
  function Resolve(p: Pool, ids: seq<nat>): (r: Result<seq<Attrib>>)
    ensures r.Ok? ==> |r.value| == |ids|
    ensures r.Err? ==> r.error == UnknownAttribute
  {
    if ids == [] then Ok([])
    else
      var front :- Resolve(p, ids[..|ids| - 1]);
      var n := ids[|ids| - 1];
      if n < |p.attribs| then Ok(front + [p.attribs[n]])
      else Err(UnknownAttribute)
  }

  /** Resolving fails just when some number is unknown, and otherwise gives
      each number's pair. */
  lemma {:induction false} ResolveMeaning(p: Pool, ids: seq<nat>)
    ensures Resolve(p, ids).Ok? <==> forall i :: 0 <= i < |ids| ==> ids[i] < |p.attribs|
    ensures Resolve(p, ids).Ok? ==> forall i :: 0 <= i < |ids| ==> Resolve(p, ids).value[i] == p.attribs[ids[i]]
  {
    if ids != [] {
      var front := ids[..|ids| - 1];
      ResolveMeaning(p, front);
      assert forall i :: 0 <= i < |front| ==> front[i] == ids[i];
    }
  }

  /** `putAttrib` on each pair in turn: the numbers, and the grown pool. */
  function PutAll(p: Pool, pairs: seq<Attrib>): (r: (Pool, seq<nat>))
    ensures |r.1| == |pairs|
    ensures p.attribs <= r.0.attribs
  {
    if pairs == [] then (p, [])
    else
      var (q, ids) := PutAll(p, pairs[..|pairs| - 1]);
      var (q', n) := PutAttrib(q, pairs[|pairs| - 1], false);
      (q', ids + [n as nat])
  }

  lemma {:induction false} ResolveSnoc(p: Pool, ids: seq<nat>, n: nat, pairs: seq<Attrib>)
    requires Resolve(p, ids) == Ok(pairs) && n < |p.attribs|
    ensures Resolve(p, ids + [n]) == Ok(pairs + [p.attribs[n]])
  {
    assert (ids + [n])[..|ids|] == ids;
  }

  /** A grown pool names the old numbers as before. */
  lemma {:induction false} ResolveGrow(p: Pool, q: Pool, ids: seq<nat>)
    requires Resolve(p, ids).Ok? && p.attribs <= q.attribs
    ensures Resolve(q, ids) == Resolve(p, ids)
  {
    if ids != [] {
      ResolveGrow(p, q, ids[..|ids| - 1]);
    }
  }

  /** The numbers written name the pairs they were written for. */
  lemma {:induction false} PutAllResolve(p: Pool, pairs: seq<Attrib>)
    ensures Resolve(PutAll(p, pairs).0, PutAll(p, pairs).1) == Ok(pairs)
  {
    if pairs != [] {
      var front := pairs[..|pairs| - 1];
      var last := pairs[|pairs| - 1];
      PutAllResolve(p, front);
      var (q, ids) := PutAll(p, front);
      var (q', n) := PutAttrib(q, last, false);
      assert PutAll(p, pairs) == (q', ids + [n as nat]);
      ResolveGrow(q, q', ids);
      ResolveSnoc(q', ids, n as nat, front);
      assert pairs == front + [last];
    }
  }

  lemma {:induction false} PutAllValid(p: Pool, pairs: seq<Attrib>)
    requires PoolValid(p)
    ensures PoolValid(PutAll(p, pairs).0)
  {
    if pairs != [] {
      PutAllValid(p, pairs[..|pairs| - 1]);
      PutAttribValid(PutAll(p, pairs[..|pairs| - 1]).0, pairs[|pairs| - 1], false);
    }
  }

  /** `composeAttributes(att1, att2, resultIsMutation, pool)`: the new
      attribute numbers and the pool they are numbered in. */
  function ComposeAttributes(att1: seq<nat>, att2: seq<nat>, isMutation: bool, p: Pool): (r: Result<(seq<nat>, Pool)>)
    ensures att1 == [] && isMutation ==> r == Ok((att2, p))
    ensures !(att1 == [] && isMutation) && att2 == [] ==> r == Ok((att1, p))
    ensures r.Err? ==> r.error == UnknownAttribute
  {
    if att1 == [] && isMutation then Ok((att2, p))
    else if att2 == [] then Ok((att1, p))
    else
      var pairs1 :- Resolve(p, att1);
      var pairs2 :- Resolve(p, att2);
      var atts := SortPairs(ComposeAll(pairs1, pairs2, isMutation));
      var (q, ids) := PutAll(p, atts);
      Ok((ids, q))
  }

  /** Composition in the general case: the result is sorted, names its pairs
      in the returned pool, and says what `att1` said updated by `att2`. */
  lemma {:induction false} ComposeAttributesMeaning(att1: seq<nat>, att2: seq<nat>, isMutation: bool, p: Pool)
    requires att1 != [] || !isMutation
    requires att2 != []
    requires ComposeAttributes(att1, att2, isMutation, p).Ok?
    ensures var (ids, q) := ComposeAttributes(att1, att2, isMutation, p).value;
            var pairs1 := Resolve(p, att1).value;
            var pairs2 := Resolve(p, att2).value;
            var res := Resolve(q, ids);
            res.Ok? && Sorted(res.value)
            && (UniqueKeys(pairs1) ==>
                  UniqueKeys(res.value) && AsMap(res.value) == MapCompose(AsMap(pairs1), pairs2, isMutation))
  {
    var pairs1 := Resolve(p, att1).value;
    var pairs2 := Resolve(p, att2).value;
    var atts := SortPairs(ComposeAll(pairs1, pairs2, isMutation));
    PutAllResolve(p, atts);
    SortPairsSorted(ComposeAll(pairs1, pairs2, isMutation));
    if UniqueKeys(pairs1) {
      ComposeAllMap(pairs1, pairs2, isMutation);
      SortPairsMap(ComposeAll(pairs1, pairs2, isMutation));
    }
  }

  // ------------------------------------------------------------ followAttributes

  /** One pair of `att1` against the pairs of `att2`: the first pair of
      `att2` with the same key is dropped when `att1`'s value is not above
      it (the earlier value wins the merge). */
  function FollowStep(atts: seq<Attrib>, pair1: Attrib): seq<Attrib> {
    var i := FindKey(atts, pair1.key, 0);
    if i < |atts| && LexLe(pair1.value, atts[i].value) then atts[..i] + atts[i + 1..] else atts
  }

  function FollowAll(atts: seq<Attrib>, pairs1: seq<Attrib>): seq<Attrib> {
    if pairs1 == [] then atts
    else FollowStep(FollowAll(atts, pairs1[..|pairs1| - 1]), pairs1[|pairs1| - 1])
  }

  /** The meaning of following: a key of `att2` is dropped once a pair of
      `att1` with that key has a value not above it. */
  function MapFollow(m: map<string, string>, pairs1: seq<Attrib>): map<string, string> {
    if pairs1 == [] then m
    else
      var m' := MapFollow(m, pairs1[..|pairs1| - 1]);
      var p := pairs1[|pairs1| - 1];
      if p.key in m' && LexLe(p.value, m'[p.key]) then m' - {p.key} else m'
  }

  lemma {:induction false} RemoveSorted(s: seq<Attrib>, i: nat)
    requires Sorted(s) && i < |s|
    ensures Sorted(s[..i] + s[i + 1..])
  {
    var t := s[..i] + s[i + 1..];
    forall a, b | 0 <= a < b < |t| ensures PairLe(t[a], t[b]) {
      var a' := if a < i then a else a + 1;
      var b' := if b < i then b else b + 1;
      assert t[a] == s[a'] && t[b] == s[b'];
    }
  }

  lemma {:induction false} FollowStepMeaning(atts: seq<Attrib>, pair1: Attrib)
    requires UniqueKeys(atts)
    ensures UniqueKeys(FollowStep(atts, pair1))
    ensures Sorted(atts) ==> Sorted(FollowStep(atts, pair1))
    ensures AsMap(FollowStep(atts, pair1))
            == if pair1.key in AsMap(atts) && LexLe(pair1.value, AsMap(atts)[pair1.key])
               then AsMap(atts) - {pair1.key} else AsMap(atts)
  {
    var i := FindKey(atts, pair1.key, 0);
    AsMapKeys(atts, pair1.key);
    if i < |atts| {
      AsMapValue(atts, i);
      if LexLe(pair1.value, atts[i].value) {
        AsMapRemove(atts, i);
        if Sorted(atts) { RemoveSorted(atts, i); }
      }
    }
  }

  /** In a list without repeated keys, each pair gives its key's value. */
  lemma {:induction false} AsMapValue(s: seq<Attrib>, i: nat)
    requires UniqueKeys(s) && i < |s|
    ensures s[i].key in AsMap(s) && AsMap(s)[s[i].key] == s[i].value
    decreases |s|
  {
    if i < |s| - 1 {
      var front := s[..|s| - 1];
      AsMapValue(front, i);
      assert front[i] == s[i];
    }
  }

  lemma {:induction false} FollowAllMeaning(atts: seq<Attrib>, pairs1: seq<Attrib>)
    requires UniqueKeys(atts)
    ensures UniqueKeys(FollowAll(atts, pairs1))
    ensures Sorted(atts) ==> Sorted(FollowAll(atts, pairs1))
    ensures AsMap(FollowAll(atts, pairs1)) == MapFollow(AsMap(atts), pairs1)
  {
    if pairs1 != [] {
      FollowAllMeaning(atts, pairs1[..|pairs1| - 1]);
      FollowStepMeaning(FollowAll(atts, pairs1[..|pairs1| - 1]), pairs1[|pairs1| - 1]);
    }
  }

  /** The `att1` loop of `followAttributes`: each number of `att1` is
      looked up as the loop meets it, and its pair is only read while some
      pair of `att2` is left, so an unknown number fails only then. */
  function FollowIds(atts: seq<Attrib>, ids: seq<nat>, p: Pool): (r: Result<seq<Attrib>>)
    ensures r.Err? ==> r.error == UnknownAttribute
    ensures r.Ok? ==> |r.value| <= |atts|
  {
    if ids == [] then Ok(atts)
    else
      var left :- FollowIds(atts, ids[..|ids| - 1], p);
      var n := ids[|ids| - 1];
      if left == [] then Ok([])
      else if n < |p.attribs| then Ok(FollowStep(left, p.attribs[n]))
      else Err(UnknownAttribute)
  }

  /** When every number of `att1` is known, the loop removes exactly what
      its pairs win, in order. */
  lemma {:induction false} FollowIdsKnown(atts: seq<Attrib>, ids: seq<nat>, p: Pool)
    requires Resolve(p, ids).Ok?
    ensures FollowIds(atts, ids, p) == Ok(FollowAll(atts, Resolve(p, ids).value))
  {
    if ids != [] {
      var front := ids[..|ids| - 1];
      FollowIdsKnown(atts, front, p);
      var pairs := Resolve(p, front).value;
      assert Resolve(p, ids).value == pairs + [p.attribs[ids[|ids| - 1]]];
      assert (pairs + [p.attribs[ids[|ids| - 1]]])[..|pairs|] == pairs;
      FollowStepEmpty(p.attribs[ids[|ids| - 1]]);
    }
  }

  lemma {:induction false} FollowStepEmpty(pair1: Attrib)
    ensures FollowStep([], pair1) == []
  {
    assert FindKey([], pair1.key, 0) == 0;
  }

  /** At the first unknown number `ids[k]` of `att1`, the loop fails when
      some pair of `att2` is still left, and otherwise ends with none. */
  lemma {:induction false} FollowIdsUnknown(atts: seq<Attrib>, ids: seq<nat>, p: Pool, k: nat)
    requires k < |ids| && ids[k] >= |p.attribs| && Resolve(p, ids[..k]).Ok?
    ensures var before := FollowAll(atts, Resolve(p, ids[..k]).value);
            FollowIds(atts, ids, p) == if before == [] then Ok([]) else Err(UnknownAttribute)
    decreases |ids|
  {
    var front := ids[..|ids| - 1];
    if |ids| == k + 1 {
      assert front == ids[..k];
      FollowIdsKnown(atts, front, p);
    } else {
      assert front[..k] == ids[..k];
      FollowIdsUnknown(atts, front, p, k);
    }
  }

  /** `followAttributes(att1, att2, pool)`: what is left of `att2` once the
      pairs of `att1` have won their merges. */
  function FollowAttributes(att1: seq<nat>, att2: seq<nat>, p: Pool): (r: Result<(seq<nat>, Pool)>)
    ensures att2 == [] ==> r == Ok(([], p))
    ensures att2 != [] && att1 == [] ==> r == Ok((att2, p))
    ensures r.Err? ==> r.error == UnknownAttribute
    ensures r.Ok? ==> |r.value.0| <= |att2|
  {
    if att2 == [] then Ok(([], p))
    else if att1 == [] then Ok((att2, p))
    else
      var pairs2 :- Resolve(p, att2);
      var atts :- FollowIds(pairs2, att1, p);
      var (q, ids) := PutAll(p, atts);
      Ok((ids, q))
  }

  /** Following in the general case.  When `att1` is all known, the
      numbers name the surviving pairs of `att2`, which say what `att2`
      said less the keys `att1` won, sorted when `att2` was ("we've only
      removed attributes").  When it is not, the first unknown number fails
      the call exactly when some pair of `att2` is still left, and
      otherwise nothing is left. */
  lemma {:induction false} FollowAttributesMeaning(att1: seq<nat>, att2: seq<nat>, p: Pool)
    requires att1 != [] && att2 != [] && Resolve(p, att2).Ok?
    ensures var r := FollowAttributes(att1, att2, p);
            var pairs2 := Resolve(p, att2).value;
            && (Resolve(p, att1).Ok? ==>
                  var pairs1 := Resolve(p, att1).value;
                  r.Ok? && var (ids, q) := r.value;
                  var res := Resolve(q, ids);
                  res.Ok? && res.value == FollowAll(pairs2, pairs1)
                  && (UniqueKeys(pairs2) ==>
                        UniqueKeys(res.value) && AsMap(res.value) == MapFollow(AsMap(pairs2), pairs1)
                        && (Sorted(pairs2) ==> Sorted(res.value))))
            && (forall k :: 0 <= k < |att1| && att1[k] >= |p.attribs| && Resolve(p, att1[..k]).Ok? ==>
                  var before := FollowAll(pairs2, Resolve(p, att1[..k]).value);
                  if before == [] then r == Ok(([], p)) else r == Err(UnknownAttribute))
  {
    var pairs2 := Resolve(p, att2).value;
    if Resolve(p, att1).Ok? {
      var pairs1 := Resolve(p, att1).value;
      FollowIdsKnown(pairs2, att1, p);
      PutAllResolve(p, FollowAll(pairs2, pairs1));
      if UniqueKeys(pairs2) {
        FollowAllMeaning(pairs2, pairs1);
      }
    }
    forall k | 0 <= k < |att1| && att1[k] >= |p.attribs| && Resolve(p, att1[..k]).Ok?
      ensures var before := FollowAll(pairs2, Resolve(p, att1[..k]).value);
              if before == [] then FollowAttributes(att1, att2, p) == Ok(([], p))
              else FollowAttributes(att1, att2, p) == Err(UnknownAttribute)
    {
      FollowIdsUnknown(pairs2, att1, p, k);
    }
  }

  // ------------------------------------------------------------ makeAttribsString

  /** The `attribs` argument of `makeAttribsString`: absent or empty, an
      attribute string, or a list of pairs. */
  datatype AttribsArg = NoAttribs | AttribIds(ids: seq<nat>) | AttribPairs(pairs: seq<Attrib>)

  /** The pairs in the order `makeAttribsString` takes them: sorted, when
      there are several. */
  function SortArg(pairs: seq<Attrib>): seq<Attrib> {
    if |pairs| > 1 then SortPairs(pairs) else pairs
  }

  /** The pairs `makeAttribsString` numbers: all of them for a keep, those
      with a non-empty value for an insert, none for a delete. */
  function Wanted(opcode: char, pairs: seq<Attrib>): (r: seq<Attrib>)
    ensures |r| <= |pairs|
  {
    if pairs == [] then []
    else
      var front := Wanted(opcode, pairs[..|pairs| - 1]);
      var pair := pairs[|pairs| - 1];
      if opcode == '=' || (opcode == '+' && pair.value != "") then front + [pair] else front
  }

  /** `makeAttribsString(opcode, attribs, pool)`.  For an empty list of
      pairs the source returns `undefined`, which the caller stores in the
      op's attribs and which makes the op throw only once it is written
      out; the model fails at once with `AttribsNotAString`. */
  function MakeAttribsString(opcode: char, attribs: AttribsArg, p: Pool): (r: Result<(seq<nat>, Pool)>)
    ensures attribs.NoAttribs? ==> r == Ok(([], p))
    ensures attribs.AttribIds? ==> r == Ok((attribs.ids, p))
    ensures r.Err? <==> attribs.AttribPairs? && attribs.pairs == []
    ensures r.Err? ==> r.error == AttribsNotAString
  {
    match attribs
    case NoAttribs => Ok(([], p))
    case AttribIds(ids) => Ok((ids, p))
    case AttribPairs(pairs) =>
      if pairs == [] then Err(AttribsNotAString)
      else
        var (q, ids) := PutAll(p, Wanted(opcode, SortArg(pairs)));
        Ok((ids, q))
  }

  lemma {:induction false} WantedFrom(opcode: char, pairs: seq<Attrib>)
    ensures forall i :: 0 <= i < |Wanted(opcode, pairs)| ==>
              Wanted(opcode, pairs)[i] in multiset(pairs)
  {
    if pairs != [] {
      var front := pairs[..|pairs| - 1];
      WantedFrom(opcode, front);
      var w := Wanted(opcode, front);
      forall i | 0 <= i < |w| ensures w[i] in multiset(pairs) {
        assert w[i] in multiset(front);
        assert pairs == front + [pairs[|pairs| - 1]];
      }
    }
  }

  lemma {:induction false} WantedSorted(opcode: char, pairs: seq<Attrib>)
    requires Sorted(pairs)
    ensures Sorted(Wanted(opcode, pairs))
  {
    if pairs != [] {
      var front := pairs[..|pairs| - 1];
      var pair := pairs[|pairs| - 1];
      assert Sorted(front);
      WantedSorted(opcode, front);
      WantedFrom(opcode, front);
      var w := Wanted(opcode, front);
      forall i | 0 <= i < |w| ensures PairLe(w[i], pair) {
        assert w[i] in multiset(front);
        var k :| 0 <= k < |front| && front[k] == w[i];
        assert pairs[k] == w[i];
      }
    }
  }

  lemma {:induction false} SortArgSorted(pairs: seq<Attrib>)
    ensures Sorted(SortArg(pairs)) && multiset(SortArg(pairs)) == multiset(pairs)
  {
    if |pairs| > 1 { SortPairsSorted(pairs); }
  }

  /** A list of pairs becomes the numbers of its pairs in sorted order; a
      delete keeps none, a keep all, an insert those with a value. */
  lemma {:induction false} MakeAttribsStringPairs(opcode: char, pairs: seq<Attrib>, p: Pool)
    requires pairs != []
    ensures var r := MakeAttribsString(opcode, AttribPairs(pairs), p);
            r.Ok? && var res := Resolve(r.value.1, r.value.0);
            res.Ok? && Sorted(res.value)
            && (opcode == '=' ==> multiset(res.value) == multiset(pairs))
            && (opcode == '+' ==> forall a :: multiset(res.value)[a] == if a.value != "" then multiset(pairs)[a] else 0)
            && (opcode != '=' && opcode != '+' ==> res.value == [])
  {
    var sorted := SortArg(pairs);
    var w := Wanted(opcode, sorted);
    assert MakeAttribsString(opcode, AttribPairs(pairs), p) == Ok((PutAll(p, w).1, PutAll(p, w).0));
    SortArgSorted(pairs);
    WantedSorted(opcode, sorted);
    PutAllResolve(p, w);
    if opcode == '=' { WantedKeep(sorted); }
    if opcode == '+' { WantedInsert(sorted); }
    if opcode != '=' && opcode != '+' { WantedNone(opcode, sorted); }
  }

  lemma {:induction false} WantedInsert(pairs: seq<Attrib>)
    ensures forall a :: multiset(Wanted('+', pairs))[a] == if a.value != "" then multiset(pairs)[a] else 0
  {
    if pairs != [] {
      var front, last := pairs[..|pairs| - 1], pairs[|pairs| - 1];
      WantedInsert(front);
      assert pairs == front + [last];
    }
  }

  lemma {:induction false} WantedKeep(pairs: seq<Attrib>)
    ensures Wanted('=', pairs) == pairs
  {
    if pairs != [] {
      WantedKeep(pairs[..|pairs| - 1]);
      assert pairs == pairs[..|pairs| - 1] + [pairs[|pairs| - 1]];
    }
  }

  lemma {:induction false} WantedNone(opcode: char, pairs: seq<Attrib>)
    requires opcode != '=' && opcode != '+'
    ensures Wanted(opcode, pairs) == []
  {
    if pairs != [] {
      WantedNone(opcode, pairs[..|pairs| - 1]);
    }
  }

  // ------------------------------------------------------------ attributeTester

  /** `attributeTester(pair, pool)`: the test "does this attribute string
      carry the pair", which is false for a pair the pool does not know. */
  function AttributeTester(pair: Attrib, p: Pool): seq<nat> -> bool {
    var n := PutAttrib(p, pair, true).1;
    if n < 0 then (ids: seq<nat>) => false
    else (ids: seq<nat>) => exists i :: 0 <= i < |ids| && ids[i] == n
  }

  /** The test only holds when some number of the string names the pair,
      and in a valid pool it holds just then. */
  lemma {:induction false} AttributeTesterExact(pair: Attrib, p: Pool, ids: seq<nat>)
    ensures AttributeTester(pair, p)(ids)
            ==> exists i :: 0 <= i < |ids| && ids[i] < |p.attribs| && p.attribs[ids[i]] == pair
    ensures PoolValid(p) ==>
              (AttributeTester(pair, p)(ids)
               <==> exists i :: 0 <= i < |ids| && ids[i] < |p.attribs| && p.attribs[ids[i]] == pair)
  {
    var n := PutAttrib(p, pair, true).1;
    if PoolValid(p) && exists i :: 0 <= i < |ids| && ids[i] < |p.attribs| && p.attribs[ids[i]] == pair {
      var i :| 0 <= i < |ids| && ids[i] < |p.attribs| && p.attribs[ids[i]] == pair;
      PutAttribKnown(p, ids[i]);
    }
  }
}
