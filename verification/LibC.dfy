/** The fallback C library: `memmove`, `memcpy`, `memcmp`, `strlen`, `strchr`, `strspn`, `strcspn`,
    `strpbrk`, `strstr`. Pointers are indices into a block of memory; a read-only block is a
    sequence, a written one an array. Every access is in bounds, so for a string whose terminator
    is the last byte of its block nothing past the terminator is ever read. */
module LibC {
  import opened Bytes

  // ---------- memcpy and memmove ----------

  /** Memory after the n bytes at src have been copied to dst as they were. */
  predicate Moved(before: seq<byte>, after: seq<byte>, dst: nat, src: nat, n: nat)
    requires src + n <= |before| && dst + n <= |before|
  {
    && |after| == |before|
    && forall i | 0 <= i < |after| :: after[i] == before[if dst <= i < dst + n then src + (i - dst) else i]
  }

  method MemMove(m: array<byte>, dst: nat, src: nat, n: nat)
    requires src + n <= m.Length && dst + n <= m.Length
    modifies m
    ensures Moved(old(m[..]), m[..], dst, src, n)
  {
    if src < dst {
      var pd, ps, left := dst + n, src + n, n;
      while left > 0
        invariant 0 <= left <= n && pd == dst + left && ps == src + left
        invariant forall i | 0 <= i < m.Length && !(pd <= i < dst + n) :: m[i] == old(m[i])
        invariant forall i | pd <= i < dst + n :: m[i] == old(m[src + (i - dst)])
      {
        left, pd, ps := left - 1, pd - 1, ps - 1;
        m[pd] := m[ps];
      }
    } else {
      var pd, ps, left := dst, src, n;
      while left > 0
        invariant 0 <= left <= n && pd == dst + (n - left) && ps == src + (n - left)
        invariant forall i | 0 <= i < m.Length && !(dst <= i < pd) :: m[i] == old(m[i])
        invariant forall i | dst <= i < pd :: m[i] == old(m[src + (i - dst)])
      {
        left := left - 1;
        m[pd] := m[ps];
        pd, ps := pd + 1, ps + 1;
      }
    }
  }

  /** Which source byte a forward copy stores at distance k: a destination that starts inside the source, d bytes
      behind its start, repeats the first d bytes over and over. */
  function CopiedFrom(dst: nat, src: nat, k: nat): (i: nat)
    ensures i <= src + k
    decreases k
  {
    if src < dst && k >= dst - src then CopiedFrom(dst, src, k - (dst - src)) else src + k
  }

  predicate CopiedForward(before: seq<byte>, after: seq<byte>, dst: nat, src: nat, n: nat)
    requires src + n <= |before| && dst + n <= |before|
  {
    && |after| == |before|
    && forall i | 0 <= i < |after| ::
        after[i] == before[if dst <= i < dst + n then CopiedFrom(dst, src, i - dst) else i]
  }

  method MemCpy(m: array<byte>, dst: nat, src: nat, n: nat)
    requires src + n <= m.Length && dst + n <= m.Length
    modifies m
    ensures CopiedForward(old(m[..]), m[..], dst, src, n)
  {
    var dp, sp, left := dst, src, n;
    while left > 0
      invariant 0 <= left <= n && dp == dst + (n - left) && sp == src + (n - left)
      invariant forall i | 0 <= i < m.Length && !(dst <= i < dp) :: m[i] == old(m[i])
      invariant forall i | dst <= i < dp :: m[i] == old(m[CopiedFrom(dst, src, i - dst)])
    {
      left := left - 1;
      m[dp] := m[sp];
      dp, sp := dp + 1, sp + 1;
    }
  }

  /** The block repeats itself: every byte equals the one d places before it. */
  predicate Periodic(s: seq<byte>, d: nat) {
    forall k: nat | k + d < |s| :: RepeatsAt(s, d, k)
  }

  predicate RepeatsAt(s: seq<byte>, d: nat, k: nat)
    requires k + d < |s|
  {
    s[k + d] == s[k]
  }

  /** In a periodic source the byte that a forward copy stores is the right one. */
  lemma {:induction false} PeriodicCopy(before: seq<byte>, dst: nat, src: nat, n: nat, k: nat)
    requires src + n <= |before| && k < n
    requires src < dst ==> Periodic(before[src..src + n], dst - src)
    ensures before[CopiedFrom(dst, src, k)] == before[src + k]
    decreases k
  {
    if src < dst && k >= dst - src {
      var d := dst - src;
      assert RepeatsAt(before[src..src + n], d, k - d);
      PeriodicCopy(before, dst, src, n, k - d);
    }
  }

  /** `memcpy` does the work of `memmove` exactly when the destination does not start behind the start of the source,
      or the source repeats itself with the distance to it; a distance of n or more leaves nothing to repeat. */
  lemma {:induction false} MemCpyIsMemMove(before: seq<byte>, copied: seq<byte>, dst: nat, src: nat, n: nat)
    requires src + n <= |before| && dst + n <= |before|
    requires CopiedForward(before, copied, dst, src, n)
    ensures Moved(before, copied, dst, src, n) <==> dst <= src || Periodic(before[src..src + n], dst - src)
    ensures dst <= src || src + n <= dst ==> Moved(before, copied, dst, src, n)
  {
    if dst <= src || Periodic(before[src..src + n], dst - src) {
      forall i | dst <= i < dst + n ensures copied[i] == before[src + (i - dst)] {
        PeriodicCopy(before, dst, src, n, i - dst);
      }
    }
    if Moved(before, copied, dst, src, n) && src < dst {
      MovedIsPeriodic(before, copied, dst, src, n);
    }
  }

  /** The copied byte at distance k + d is the one at distance k again. */
  lemma {:induction false} MovedIsPeriodic(before: seq<byte>, copied: seq<byte>, dst: nat, src: nat, n: nat)
    requires src < dst && src + n <= |before| && dst + n <= |before|
    requires CopiedForward(before, copied, dst, src, n) && Moved(before, copied, dst, src, n)
    ensures Periodic(before[src..src + n], dst - src)
  {
    var d, s := dst - src, before[src..src + n];
    forall k: nat | k + d < |s| ensures RepeatsAt(s, d, k) {
      assert copied[dst + (k + d)] == before[CopiedFrom(dst, src, k + d)];
      assert copied[dst + k] == before[CopiedFrom(dst, src, k)];
      assert copied[dst + (k + d)] == before[src + (k + d)] && copied[dst + k] == before[src + k];
    }
  }

  // ---------- comparing and searching ----------

  /** At each of the first n offsets that the two blocks agree up to, both can be read. */
  predicate Readable(s1: seq<byte>, p1: nat, s2: seq<byte>, p2: nat, n: nat) {
    forall k | 0 <= k < n :: Agree(s1, p1, s2, p2, k) ==> p1 + k < |s1| && p2 + k < |s2|
  }

  predicate Agree(s1: seq<byte>, p1: nat, s2: seq<byte>, p2: nat, k: nat) {
    p1 + k <= |s1| && p2 + k <= |s2| && s1[p1..p1 + k] == s2[p2..p2 + k]
  }

  /** Comparing stops at the first difference, and its sign is the result. */
  method MemCmp(s1: seq<byte>, p1: nat, s2: seq<byte>, p2: nat, n: nat) returns (r: int)
    requires p1 <= |s1| && p2 <= |s2| && Readable(s1, p1, s2, p2, n)
    ensures r == 0 <==> Agree(s1, p1, s2, p2, n)
    ensures r != 0 ==> exists k ::
      && 0 <= k < n && Agree(s1, p1, s2, p2, k) && p1 + k < |s1| && p2 + k < |s2|
      && r == s1[p1 + k] as int - s2[p2 + k] as int
  {
    var k := 0;
    while k < n
      invariant 0 <= k <= n && Agree(s1, p1, s2, p2, k)
    {
      if s1[p1 + k] != s2[p2 + k] {
        if Agree(s1, p1, s2, p2, n) { AgreePrefix(s1, p1, s2, p2, k + 1, n); }
        AgreeStep(s1, p1, s2, p2, k);
        return s1[p1 + k] as int - s2[p2 + k] as int;
      }
      AgreeStep(s1, p1, s2, p2, k);
      k := k + 1;
    }
    return 0;
  }

  lemma {:induction false} AgreeStep(s1: seq<byte>, p1: nat, s2: seq<byte>, p2: nat, k: nat)
    requires p1 + k < |s1| && p2 + k < |s2| && Agree(s1, p1, s2, p2, k)
    ensures s1[p1 + k] == s2[p2 + k] <==> Agree(s1, p1, s2, p2, k + 1)
  {
    assert s1[p1..p1 + k + 1] == s1[p1..p1 + k] + [s1[p1 + k]];
    assert s2[p2..p2 + k + 1] == s2[p2..p2 + k] + [s2[p2 + k]];
  }

  lemma {:induction false} AgreePrefix(s1: seq<byte>, p1: nat, s2: seq<byte>, p2: nat, k: nat, n: nat)
    requires k <= n && Agree(s1, p1, s2, p2, n)
    ensures Agree(s1, p1, s2, p2, k)
  {
    assert s1[p1..p1 + k] == s1[p1..p1 + n][..k];
    assert s2[p2..p2 + k] == s2[p2..p2 + n][..k];
  }

  method StrLen(s: seq<byte>, p: nat) returns (n: nat)
    requires IsCString(s, p)
    ensures n == |Str(s, p)|
  {
    n := 0;
    while s[p + n] != 0
      invariant p + n <= End(s, p)
      decreases End(s, p) - (p + n)
    {
      n := n + 1;
    }
  }

  /** The first occurrence of c, which may be the terminator itself; -1 stands for the null pointer. */
  method StrChr(s: seq<byte>, p: nat, c: byte) returns (r: int)
    requires IsCString(s, p)
    ensures r == -1 <==> c != 0 && c !in Str(s, p)
    ensures r != -1 ==> p <= r <= End(s, p) && s[r] == c && c !in s[p..r]
  {
    var q := p;
    while s[q] != c
      invariant p <= q <= End(s, p) && c !in s[p..q]
      decreases End(s, p) - q
    {
      if s[q] == 0 {
        return -1;
      }
      assert s[p..q + 1] == s[p..q] + [s[q]];
      q := q + 1;
    }
    return q;
  }

  /** The first index in [p, hi] that is hi or holds a byte outside d. */
  function SkipIn(m: seq<byte>, p: nat, hi: nat, d: seq<byte>): (i: nat)
    requires p <= hi <= |m|
    ensures p <= i <= hi
    decreases hi - p
  {
    if p < hi && m[p] in d then SkipIn(m, p + 1, hi, d) else p
  }

  /** The first index in [p, hi] that is hi or holds a byte of d. */
  function SkipOut(m: seq<byte>, p: nat, hi: nat, d: seq<byte>): (i: nat)
    requires p <= hi <= |m|
    ensures p <= i <= hi
    decreases hi - p
  {
    if p < hi && m[p] !in d then SkipOut(m, p + 1, hi, d) else p
  }

  /** All bytes in [p, i) are in d, and the next one is not. */
  predicate EndsIn(m: seq<byte>, p: nat, hi: nat, d: seq<byte>, i: nat) {
    p <= i <= hi <= |m| && (forall k | p <= k < i :: m[k] in d) && (i < hi ==> m[i] !in d)
  }

  /** All bytes in [p, i) are outside d, and the next one is not. */
  predicate EndsOut(m: seq<byte>, p: nat, hi: nat, d: seq<byte>, i: nat) {
    p <= i <= hi <= |m| && (forall k | p <= k < i :: m[k] !in d) && (i < hi ==> m[i] in d)
  }

  lemma {:induction false} SkipInIs(m: seq<byte>, p: nat, hi: nat, d: seq<byte>, i: nat)
    requires p <= hi <= |m|
    ensures SkipIn(m, p, hi, d) == i <==> EndsIn(m, p, hi, d, i)
    decreases hi - p
  {
    if p < hi && m[p] in d { SkipInIs(m, p + 1, hi, d, i); }
  }

  lemma {:induction false} SkipOutIs(m: seq<byte>, p: nat, hi: nat, d: seq<byte>, i: nat)
    requires p <= hi <= |m|
    ensures SkipOut(m, p, hi, d) == i <==> EndsOut(m, p, hi, d, i)
    decreases hi - p
  {
    if p < hi && m[p] !in d { SkipOutIs(m, p + 1, hi, d, i); }
  }

  method StrSpn(s1: seq<byte>, p: nat, s2: seq<byte>) returns (n: nat)
    requires IsCString(s1, p) && IsCString(s2, 0)
    ensures EndsIn(s1, p, End(s1, p), Str(s2, 0), p + n)
  {
    n := 0;
    while s1[p + n] != 0
      invariant p + n <= End(s1, p)
      invariant forall k | p <= k < p + n :: s1[k] in Str(s2, 0)
      decreases End(s1, p) - (p + n)
    {
      var found := StrChr(s2, 0, s1[p + n]);
      if found == -1 {
        break;
      }
      assert s1[p + n] in Str(s2, 0) by { FoundInside(s2, 0, found); }
      n := n + 1;
    }
  }

  lemma {:induction false} FoundInside(s: seq<byte>, p: nat, i: nat)
    requires IsCString(s, p) && p <= i <= End(s, p) && s[i] != 0
    ensures s[i] in Str(s, p)
  {
    assert Str(s, p)[i - p] == s[i];
  }

  method StrCSpn(s1: seq<byte>, p: nat, s2: seq<byte>) returns (n: nat)
    requires IsCString(s1, p) && IsCString(s2, 0)
    ensures EndsOut(s1, p, End(s1, p), Str(s2, 0), p + n)
  {
    n := 0;
    while s1[p + n] != 0
      invariant p + n <= End(s1, p)
      invariant forall k | p <= k < p + n :: s1[k] !in Str(s2, 0)
      decreases End(s1, p) - (p + n)
    {
      var found := StrChr(s2, 0, s1[p + n]);
      if found != -1 {
        FoundInside(s2, 0, found);
        return;
      }
      n := n + 1;
    }
  }

  /** The first byte of the string that is in the set, or null; `strcspn` with a null for the end. */
  method StrPBrk(s1: seq<byte>, p: nat, s2: seq<byte>) returns (r: int)
    requires IsCString(s1, p) && IsCString(s2, 0)
    ensures r == -1 || p <= r < End(s1, p)
    ensures EndsOut(s1, p, End(s1, p), Str(s2, 0), if r == -1 then End(s1, p) else r)
  {
    var q := p;
    while s1[q] != 0
      invariant p <= q <= End(s1, p)
      invariant forall k | p <= k < q :: s1[k] !in Str(s2, 0)
      decreases End(s1, p) - q
    {
      var found := StrChr(s2, 0, s1[q]);
      q := q + 1;
      if found != -1 {
        q := q - 1;
        FoundInside(s2, 0, found);
        return q;
      }
    }
    return -1;
  }

  // ---------- strstr ----------

  /** The needle occurs at index i of a haystack that ends at hi. */
  predicate OccursAt(s: seq<byte>, i: nat, hi: nat, needle: seq<byte>) {
    i + |needle| <= hi <= |s| && s[i..i + |needle|] == needle
  }

  /** The least index at which the needle occurs. Null means that it occurs nowhere, with one exception:
      an empty haystack is not even searched for the empty needle. */
  method StrStr(s1: seq<byte>, p1: nat, s2: seq<byte>, p2: nat) returns (r: int)
    requires IsCString(s1, p1) && IsCString(s2, p2)
    ensures StrStrResult(s1, p1, s2, p2, r)
  {
    var n := StrLen(s2, p2);
    var q := p1;
    while s1[q] != 0
      invariant p1 <= q <= End(s1, p1)
      invariant forall i | p1 <= i < q :: !OccursAt(s1, i, End(s1, p1), Str(s2, p2))
      decreases End(s1, p1) - q
    {
      CompareStopsInTime(s1, q, End(s1, p1), s2, p2, n);
      var c := MemCmp(s1, q, s2, p2, n);
      q := q + 1;
      if c == 0 {
        return q - 1;
      }
    }
    ghost var hi, needle := End(s1, p1), Str(s2, p2);
    assert needle == [] ==> OccursAt(s1, p1, hi, needle) && OccursAt(s1, hi, hi, needle);
    return -1;
  }

  /** Comparing the needle with a place in the haystack stops at the haystack's terminator at the latest,
      and finds a match exactly where the needle occurs. */
  lemma {:induction false} CompareStopsInTime(s1: seq<byte>, q: nat, hi: nat, s2: seq<byte>, p2: nat, n: nat)
    requires q <= hi < |s1| && s1[hi] == 0 && (forall i | q <= i < hi :: s1[i] != 0)
    requires IsCString(s2, p2) && n == |Str(s2, p2)|
    ensures forall k | 0 <= k < n :: Agree(s1, q, s2, p2, k) ==> q + k <= hi
    ensures Readable(s1, q, s2, p2, n)
    ensures Agree(s1, q, s2, p2, n) <==> OccursAt(s1, q, hi, Str(s2, p2))
  {
    forall k | 0 <= k <= n && Agree(s1, q, s2, p2, k) ensures q + k <= hi {
      if q + k > hi { AgreeAt(s1, q, s2, p2, k, hi - q); }
    }
    assert Str(s2, p2) == s2[p2..p2 + n];
  }

  lemma {:induction false} AgreeAt(s1: seq<byte>, p1: nat, s2: seq<byte>, p2: nat, n: nat, k: nat)
    requires Agree(s1, p1, s2, p2, n) && k < n
    ensures s1[p1 + k] == s2[p2 + k]
  {
    assert s1[p1 + k] == s1[p1..p1 + n][k];
  }

  /** What `StrStr` promises of its result. */
  predicate StrStrResult(s1: seq<byte>, p1: nat, s2: seq<byte>, p2: nat, r: int)
    requires IsCString(s1, p1) && IsCString(s2, p2)
  {
    var hi, needle := End(s1, p1), Str(s2, p2);
    && (r != -1 ==> p1 <= r < hi && OccursAt(s1, r, hi, needle)
                    && forall i | p1 <= i < r :: !OccursAt(s1, i, hi, needle))
    && (r == -1 <==> (forall i | p1 <= i <= hi :: !OccursAt(s1, i, hi, needle)) || (p1 == hi && needle == []))
  }

  /** For an empty needle in an empty haystack the result is null, although the needle occurs there. */
  lemma EmptyInEmptyIsNull(s1: seq<byte>, p1: nat, s2: seq<byte>, p2: nat, r: int)
    requires IsCString(s1, p1) && IsCString(s2, p2) && Str(s1, p1) == Str(s2, p2) == []
    requires StrStrResult(s1, p1, s2, p2, r)
    ensures r == -1 && OccursAt(s1, p1, End(s1, p1), Str(s2, p2))
  {
    assert |Str(s1, p1)| == End(s1, p1) - p1;
  }
}
