/** The attribute pool that every attribute number of an op refers to.
    AttributePool.js is not part of this model: the pool is the list of
    (key, value) pairs it has numbered so far, in numbering order, and the
    two calls Changeset.js makes on it, `getAttrib` and `putAttrib`. */
module Pools {
  import opened Results

  /** An attribute pair `[key, value]`. */
  datatype Attrib = Attrib(key: string, value: string)

  /** `numToAttrib`: the pair numbered `n` is `attribs[n]`. */
  datatype Pool = Pool(attribs: seq<Attrib>)

  /** A pool numbers each pair at most once (`attribToNum` is a map). */
  ghost predicate PoolValid(p: Pool) {
    forall i, j :: 0 <= i < j < |p.attribs| ==> p.attribs[i] != p.attribs[j]
  }

  /** `getAttrib(num)`: the pair, or nothing for an unknown number. */
  function GetAttrib(p: Pool, n: nat): (r: Option<Attrib>)
    ensures r.Some? <==> n < |p.attribs|
    ensures r.Some? ==> r.value == p.attribs[n]
  {
    if n < |p.attribs| then Some(p.attribs[n]) else None
  }

  /** The number of `a` among the pairs from `i` on, or -1. */
  function FindFrom(p: Pool, a: Attrib, i: nat): (r: int)
    requires i <= |p.attribs|
    ensures r == -1 || (i <= r < |p.attribs| && p.attribs[r] == a)
    ensures r == -1 ==> forall j :: i <= j < |p.attribs| ==> p.attribs[j] != a
    decreases |p.attribs| - i
  {
    if i == |p.attribs| then -1
    else if p.attribs[i] == a then i
    else FindFrom(p, a, i + 1)
  }

  /** `putAttrib(attrib, dontAddIfAbsent)`: the number of a known pair; for
      an unknown one, -1 when `onlyIfExists`, and otherwise the next free
      number, under which the pair is then stored. */
  function PutAttrib(p: Pool, a: Attrib, onlyIfExists: bool): (r: (Pool, int))
    ensures r.1 >= 0 ==> GetAttrib(r.0, r.1) == Some(a)
    ensures r.1 < 0 <==> onlyIfExists && forall j :: 0 <= j < |p.attribs| ==> p.attribs[j] != a
    ensures r.1 < 0 ==> r.1 == -1
    ensures onlyIfExists ==> r.0 == p
    ensures p.attribs <= r.0.attribs
  {
    var n := FindFrom(p, a, 0);
    if n >= 0 then (p, n)
    else if onlyIfExists then (p, -1)
    else (Pool(p.attribs + [a]), |p.attribs|)
  }

  /** Adding a pair keeps every pair numbered once. */
  lemma {:induction false} PutAttribValid(p: Pool, a: Attrib, onlyIfExists: bool)
    requires PoolValid(p)
    ensures PoolValid(PutAttrib(p, a, onlyIfExists).0)
  {
    var q := PutAttrib(p, a, onlyIfExists).0;
    if q != p {
      assert q.attribs == p.attribs + [a];
      forall i, j | 0 <= i < j < |q.attribs|
        ensures q.attribs[i] != q.attribs[j]
      {
        if j == |p.attribs| {
          assert q.attribs[i] == p.attribs[i];
        }
      }
    }
  }

  /** In a valid pool, the number `putAttrib` gives a known pair is the only
      number it has: the pool's two directions agree. */
  lemma {:induction false} PutAttribKnown(p: Pool, n: nat)
    requires PoolValid(p) && n < |p.attribs|
    ensures PutAttrib(p, p.attribs[n], true) == (p, n)
    ensures PutAttrib(p, p.attribs[n], false) == (p, n)
  {
    var k := FindFrom(p, p.attribs[n], 0);
    assert k != -1 && p.attribs[k] == p.attribs[n];
  }
}
