/** Bytes and NUL-terminated strings in memory. */
module Bytes {
  type byte = x: int | 0 <= x < 256

  /** The index of the first NUL at or after p, or the end of memory if there is none. */
  function FirstNul(m: seq<byte>, p: nat): (e: nat)
    requires p <= |m|
    ensures p <= e <= |m| && (forall i | p <= i < e :: m[i] != 0) && (e < |m| ==> m[e] == 0)
    decreases |m| - p
  {
    if p == |m| || m[p] == 0 then p else FirstNul(m, p + 1)
  }

  /** p points to a C string: there is a terminator at or after it. */
  predicate IsCString(m: seq<byte>, p: nat) {
    p <= |m| && FirstNul(m, p) < |m|
  }

  /** The index of the terminator of the C string at p. */
  function End(m: seq<byte>, p: nat): (e: nat)
    requires IsCString(m, p)
    ensures p <= e < |m| && m[e] == 0
    ensures forall i | p <= i < e :: m[i] != 0
  {
    FirstNul(m, p)
  }

  /** The characters of the C string at p, without the terminator. */
  function Str(m: seq<byte>, p: nat): (s: seq<byte>)
    requires IsCString(m, p)
    ensures |s| == End(m, p) - p && 0 !in s
    ensures forall i | 0 <= i < |s| :: s[i] == m[p + i]
  {
    m[p..End(m, p)]
  }

  /** The first terminator is the only candidate. */
  lemma EndIs(m: seq<byte>, p: nat, e: nat)
    requires p <= e < |m| && m[e] == 0 && forall i | p <= i < e :: m[i] != 0
    ensures IsCString(m, p) && End(m, p) == e
  {
  }
}
