/** Writing a stretch of memory. */
module Memory {
  /** The memory with `text` written at p: nothing else changes. */
  function Written<T>(before: seq<T>, p: nat, text: seq<T>): (after: seq<T>)
    requires p + |text| <= |before|
    ensures |after| == |before|
  {
    before[..p] + text + before[p + |text|..]
  }

  predicate Wrote<T(==)>(before: seq<T>, p: nat, after: seq<T>, text: seq<T>) {
    p + |text| <= |before| && after == Written(before, p, text)
  }

  /** Element by element. */
  lemma WroteAll<T>(before: seq<T>, p: nat, after: seq<T>, text: seq<T>)
    requires p + |text| <= |before| == |after|
    requires forall k | 0 <= k < |before| :: after[k] == if p <= k < p + |text| then text[k - p] else before[k]
    ensures Wrote(before, p, after, text)
  {
  }

  lemma WrittenText<T>(before: seq<T>, p: nat, after: seq<T>, text: seq<T>)
    requires Wrote(before, p, after, text)
    ensures after[p..p + |text|] == text
  {
  }

  lemma WroteNothing<T>(m: seq<T>, p: nat)
    requires p <= |m|
    ensures Wrote(m, p, m, [])
  {
    assert m == m[..p] + [] + m[p..];
  }

  lemma WroteMore<T>(m: seq<T>, p: nat, m': seq<T>, s: seq<T>, m'': seq<T>, t: seq<T>)
    requires Wrote(m, p, m', s) && Wrote(m', p + |s|, m'', t)
    ensures Wrote(m, p, m'', s + t)
  {
    var q, r := p + |s|, p + |s| + |t|;
    assert m'[..q] == m[..p] + s;
    assert m'[r..] == m[r..];
    assert m[..p] + (s + t) + m[r..] == m[..p] + s + t + m[r..];
  }
}
