/** `strtok`: the stateful, destructive tokenizer of the fallback C library. */
module StrTok {
  import opened Bytes
  import opened LibC

  /** One call: the memory and the saved pointer afterwards, and the result; -1 is the null pointer. */
  datatype Call = Call(mem: seq<byte>, p: int, r: int)

  /** Calls until null: the results, and the memory in the end. */
  datatype Run = Run(results: seq<int>, mem: seq<byte>)

  /** One call on the string that starts at p and has its terminator at hi. */
  function TokStep(m: seq<byte>, p: nat, hi: nat, d: seq<byte>): Call
    requires p <= hi < |m|
  {
    var i := SkipIn(m, p, hi, d);
    var j := SkipOut(m, i, hi, d);
    if i == j then Call(m, -1, -1)
    else if j < hi then Call(m[j := 0], j + 1, i)
    else Call(m, -1, i)
  }

  lemma StepIs(m: seq<byte>, p: nat, hi: nat, d: seq<byte>, i: nat, j: nat)
    requires p <= hi < |m| && i == SkipIn(m, p, hi, d) && j == SkipOut(m, i, hi, d)
    ensures TokStep(m, p, hi, d)
         == if i == j then Call(m, -1, -1) else if j < hi then Call(m[j := 0], j + 1, i) else Call(m, -1, i)
    ensures i == j <==> i == hi
  {
    RunIsNotEmpty(m, p, hi, d, i, j);
  }

  lemma RunIsNotEmpty(m: seq<byte>, p: nat, hi: nat, d: seq<byte>, i: nat, j: nat)
    requires p <= hi <= |m| && i == SkipIn(m, p, hi, d) && j == SkipOut(m, i, hi, d)
    ensures i == j <==> i == hi
  {
    SkipInIs(m, p, hi, d, i);
    SkipOutIs(m, i, hi, d, j);
  }

  class Tokenizer {
    const mem: array<byte>
    var p: int  // the static pointer of `strtok`; -1 is null
    ghost var hi: nat  // where the string at p ends

    constructor (mem: array<byte>)
      ensures this.mem == mem && p == -1
    {
      this.mem := mem;
      p := -1;
    }

    ghost predicate Valid()
      reads this, mem
    {
      p == -1 || (p >= 0 && IsCString(mem[..], p) && End(mem[..], p) == hi)
    }

    /** C passes null, here -1, to go on with the string of the last call. */
    method StrTok(str: int, delim: seq<byte>) returns (r: int)
      requires if str == -1 then Valid() else str >= 0 && IsCString(mem[..], str)
      requires IsCString(delim, 0)
      modifies this, mem
      ensures Valid()
      ensures hi == if str == -1 then old(hi) else End(old(mem[..]), str)
      ensures Call(mem[..], p, r) ==
        if old(p) == str == -1 then Call(old(mem[..]), -1, -1)
        else TokStep(old(mem[..]), if str == -1 then old(p) else str, hi, Str(delim, 0))
    {
      if str != -1 {
        hi := End(mem[..], str);
        p := str;
      } else if p == -1 {
        return -1;
      }
      r := NextToken(delim);
    }

    /** The work of a call, once the pointer to start from is known. */
    method NextToken(delim: seq<byte>) returns (r: int)
      requires p != -1 && Valid() && IsCString(delim, 0)
      modifies `p, mem
      ensures Valid()
      ensures Call(mem[..], p, r) == TokStep(old(mem[..]), old(p), hi, Str(delim, 0))
    {
      var m := mem[..];
      var skipped := StrSpn(m, p, delim);
      var start := p + skipped;
      EndIs(m, start, hi);
      var length := StrCSpn(m, start, delim);
      SkipInIs(m, p, hi, Str(delim, 0), start);
      SkipOutIs(m, start, hi, Str(delim, 0), start + length);
      StepIs(m, p, hi, Str(delim, 0), start, start + length);
      p := start + length;
      if p == start {
        p := -1;
        return -1;
      }
      CutToken();
      return start;
    }

    /** Behind a token: its terminator is stored, and the pointer goes on behind it, or the string is at its end. */
    method CutToken()
      requires 0 <= p <= hi < mem.Length && mem[hi] == 0 && forall k | p <= k < hi :: mem[k] != 0
      modifies `p, mem
      ensures Valid()
      ensures mem[..] == if old(p) < hi then old(mem[..])[old(p) := 0] else old(mem[..])
      ensures p == if old(p) < hi then old(p) + 1 else -1
    {
      ghost var m := mem[..];
      if mem[p] != 0 {
        mem[p] := 0;
        assert mem[..] == m[p := 0];
        StringBehind(m, p, hi);
        p := p + 1;
      } else {
        p := -1;
      }
    }
  }

  /** Cutting a string leaves the rest of it behind the cut. */
  lemma StringBehind(m: seq<byte>, j: nat, hi: nat)
    requires j < hi < |m| && m[hi] == 0 && forall k | j < k < hi :: m[k] != 0
    ensures var m' := m[j := 0]; IsCString(m', j + 1) && End(m', j + 1) == hi
  {
    EndIs(m[j := 0], j + 1, hi);
  }

  /** Calling `strtok` with the string and then with null until it returns null. */
  function TokRun(m: seq<byte>, p: nat, hi: nat, d: seq<byte>): Run
    requires p <= hi < |m|
    decreases hi - p
  {
    var call := TokStep(m, p, hi, d);
    if call.r == -1 then Run([], call.mem)
    else if call.p == -1 then Run([call.r], call.mem)
    else
      var rest := TokRun(call.mem, call.p, hi, d);
      Run([call.r] + rest.results, rest.mem)
  }

  /** What is still to come, after a call that returned r. */
  function Pending(m: seq<byte>, p: int, hi: nat, d: seq<byte>, r: int): Run
    requires p <= hi < |m|
  {
    if r == -1 then Run([], m)
    else if p < 0 then Run([r], m)
    else Run([r] + TokRun(m, p, hi, d).results, TokRun(m, p, hi, d).mem)
  }

  lemma RunUnfolds(m: seq<byte>, p: nat, hi: nat, d: seq<byte>, i: nat, j: nat)
    requires p <= hi < |m| && i == SkipIn(m, p, hi, d) && j == SkipOut(m, i, hi, d)
    ensures i == hi ==> TokRun(m, p, hi, d) == Run([], m)
    ensures i < j == hi ==> TokRun(m, p, hi, d) == Run([i], m)
    ensures i < j < hi ==> var rest := TokRun(m[j := 0], j + 1, hi, d);
      TokRun(m, p, hi, d) == Run([i] + rest.results, rest.mem)
  {
    StepIs(m, p, hi, d, i, j);
  }

  // ---------- the tokens of a string ----------

  /** The stretch [i, j) of the string in [lo, hi) holds no delimiter and cannot be extended. */
  predicate MaximalRun(m: seq<byte>, lo: nat, hi: nat, d: seq<byte>, i: nat, j: nat)
    requires hi <= |m|
  {
    && lo <= i < j <= hi
    && (forall k | i <= k < j :: m[k] !in d)
    && (i == lo || m[i - 1] in d)
    && (j == hi || m[j] in d)
  }

  /** The maximal delimiter-free runs in [p, hi), from left to right. */
  function Tokens(m: seq<byte>, p: nat, hi: nat, d: seq<byte>): seq<(nat, nat)>
    requires p <= hi <= |m|
    decreases hi - p
  {
    var i := SkipIn(m, p, hi, d);
    var j := SkipOut(m, i, hi, d);
    if i == hi then []
    else if j == hi then [(i, j)]
    else [(i, j)] + Tokens(m, j + 1, hi, d)
  }

  lemma {:induction false} TokensAreMaximalRuns(m: seq<byte>, lo: nat, p: nat, hi: nat, d: seq<byte>, t: (nat, nat))
    requires lo <= p <= hi <= |m|
    requires p == lo || m[p - 1] in d
    ensures t in Tokens(m, p, hi, d) <==> p <= t.0 && MaximalRun(m, lo, hi, d, t.0, t.1)
    decreases hi - p
  {
    var i := SkipIn(m, p, hi, d);
    var j := SkipOut(m, i, hi, d);
    SkipInIs(m, p, hi, d, i);
    SkipOutIs(m, i, hi, d, j);
    if i == hi {
      assert p <= t.0 < hi ==> m[t.0] in d;
    } else {
      if p <= t.0 < j && MaximalRun(m, lo, hi, d, t.0, t.1) {
        OnlyRunBefore(m, lo, p, hi, d, i, j, t);
      }
      FirstRun(m, lo, p, hi, d, i, j);
      if j < hi {
        TokensAreMaximalRuns(m, lo, j + 1, hi, d, t);
        assert t.0 == j && j < t.1 ==> m[t.0] in d;
      }
    }
  }

  lemma FirstRun(m: seq<byte>, lo: nat, p: nat, hi: nat, d: seq<byte>, i: nat, j: nat)
    requires lo <= p <= i < j <= hi <= |m| && (p == lo || m[p - 1] in d)
    requires EndsIn(m, p, hi, d, i) && EndsOut(m, i, hi, d, j)
    ensures MaximalRun(m, lo, hi, d, i, j)
  {
  }

  lemma OnlyRunBefore(m: seq<byte>, lo: nat, p: nat, hi: nat, d: seq<byte>, i: nat, j: nat, t: (nat, nat))
    requires lo <= p <= i < j <= hi <= |m| && p <= t.0 < j
    requires EndsIn(m, p, hi, d, i) && EndsOut(m, i, hi, d, j)
    requires MaximalRun(m, lo, hi, d, t.0, t.1)
    ensures t == (i, j)
  {
    assert m[t.0] !in d && t.0 >= i;
    var before := if t.0 > i then t.0 - 1 else i;
    var inside := if t.1 < j then t.1 else i;
    var behind := if t.1 > j then j else t.0;
    assert m[before] !in d && m[inside] !in d && m[behind] !in d;
  }

  predicate Increasing(s: seq<int>) {
    forall a, b | 0 <= a < b < |s| :: s[a] < s[b]
  }

  function Starts(ts: seq<(nat, nat)>): (s: seq<int>)
    ensures |s| == |ts| && forall k | 0 <= k < |ts| :: s[k] == ts[k].0
  {
    seq(|ts|, k requires 0 <= k < |ts| => ts[k].0)
  }

  /** The memory m with a terminator stored at the end of each token before hi. */
  predicate CutAtEnds(m: seq<byte>, final: seq<byte>, ts: seq<(nat, nat)>, hi: nat) {
    && |final| == |m|
    && forall k | 0 <= k < |m| :: final[k] == if k < hi && IsTokenEnd(ts, k) then 0 else m[k]
  }

  predicate IsTokenEnd(ts: seq<(nat, nat)>, k: nat) {
    exists a :: 0 <= a < |ts| && ts[a].1 == k
  }

  lemma SameSkips(m: seq<byte>, m': seq<byte>, p: nat, hi: nat, d: seq<byte>, i: nat, j: nat)
    requires p <= hi <= |m| && hi <= |m'| && forall k | p <= k < hi :: m[k] == m'[k]
    requires i == SkipIn(m, p, hi, d) && j == SkipOut(m, i, hi, d)
    ensures SkipIn(m', p, hi, d) == i && SkipOut(m', i, hi, d) == j
  {
    SkipInIs(m, p, hi, d, i);
    SkipOutIs(m, i, hi, d, j);
    SkipInIs(m', p, hi, d, i);
    SkipOutIs(m', i, hi, d, j);
  }

  lemma {:induction false} TokensAgree(m: seq<byte>, m': seq<byte>, p: nat, hi: nat, d: seq<byte>)
    requires p <= hi <= |m| && hi <= |m'| && forall k | p <= k < hi :: m[k] == m'[k]
    ensures Tokens(m, p, hi, d) == Tokens(m', p, hi, d)
    decreases hi - p
  {
    var i := SkipIn(m, p, hi, d);
    var j := SkipOut(m, i, hi, d);
    SameSkips(m, m', p, hi, d, i, j);
    if j < hi {
      TokensAgree(m, m', j + 1, hi, d);
    }
  }

  lemma {:induction false} TokensLieWithin(m: seq<byte>, p: nat, hi: nat, d: seq<byte>)
    requires p <= hi <= |m|
    ensures forall t | t in Tokens(m, p, hi, d) :: p <= t.0 < t.1 <= hi
    ensures Increasing(Starts(Tokens(m, p, hi, d)))
    decreases hi - p
  {
    var i := SkipIn(m, p, hi, d);
    var j := SkipOut(m, i, hi, d);
    RunIsNotEmpty(m, p, hi, d, i, j);
    if j < hi {
      TokensLieWithin(m, j + 1, hi, d);
    }
  }

  lemma CutOneMore(m: seq<byte>, final: seq<byte>, t: (nat, nat), rest: seq<(nat, nat)>, hi: nat)
    requires t.1 < hi <= |m|
    requires CutAtEnds(m[t.1 := 0], final, rest, hi)
    ensures CutAtEnds(m, final, [t] + rest, hi)
  {
    forall k | 0 <= k < |m|
      ensures final[k] == if k < hi && IsTokenEnd([t] + rest, k) then 0 else m[k]
    {
      EndOfCons(t, rest, k);
    }
  }

  lemma EndOfCons(t: (nat, nat), rest: seq<(nat, nat)>, k: nat)
    ensures IsTokenEnd([t] + rest, k) <==> k == t.1 || IsTokenEnd(rest, k)
  {
    var ts := [t] + rest;
    assert ts[0] == t;
    assert forall a | 0 <= a < |rest| :: ts[a + 1] == rest[a];
  }

  /** A run started with memory m has found the tokens ts and cut them off. */
  predicate Found(m: seq<byte>, run: Run, ts: seq<(nat, nat)>, hi: nat) {
    run.results == Starts(ts) && CutAtEnds(m, run.mem, ts, hi)
  }

  lemma FoundOneMore(m: seq<byte>, rest: Run, t: (nat, nat), others: seq<(nat, nat)>, hi: nat,
                     run: Run, ts: seq<(nat, nat)>)
    requires t.1 < hi <= |m| && Found(m[t.1 := 0], rest, others, hi)
    requires run == Run([t.0] + rest.results, rest.mem) && ts == [t] + others
    ensures Found(m, run, ts, hi)
  {
    CutOneMore(m, rest.mem, t, others, hi);
  }

  lemma FoundLast(m: seq<byte>, t: (nat, nat))
    ensures Found(m, Run([t.0], m), [t], t.1)
  {
  }

  lemma TokensUnfold(m: seq<byte>, p: nat, hi: nat, d: seq<byte>, i: nat, j: nat)
    requires p <= hi <= |m| && i == SkipIn(m, p, hi, d) && j == SkipOut(m, i, hi, d)
    ensures Tokens(m, p, hi, d) ==
      if i == hi then [] else if j == hi then [(i, j)] else [(i, j)] + Tokens(m, j + 1, hi, d)
  {
  }

  lemma RunFindsLast(m: seq<byte>, p: nat, hi: nat, d: seq<byte>, i: nat)
    requires p <= hi < |m| && i == SkipIn(m, p, hi, d) && hi == SkipOut(m, i, hi, d)
    ensures Found(m, TokRun(m, p, hi, d), Tokens(m, p, hi, d), hi)
  {
    RunUnfolds(m, p, hi, d, i, hi);
    TokensUnfold(m, p, hi, d, i, hi);
    FoundLast(m, (i, hi));
  }

  /** After one call, the rest of the run and the rest of the tokens are those of the memory that it leaves. */
  lemma RunAndTokensUnfold(m: seq<byte>, p: nat, hi: nat, d: seq<byte>, i: nat, j: nat, m': seq<byte>)
    requires p <= hi < |m| && i == SkipIn(m, p, hi, d) && j == SkipOut(m, i, hi, d) && i < j < hi && m' == m[j := 0]
    ensures TokRun(m, p, hi, d) == Run([i] + TokRun(m', j + 1, hi, d).results, TokRun(m', j + 1, hi, d).mem)
    ensures Tokens(m, p, hi, d) == [(i, j)] + Tokens(m', j + 1, hi, d)
  {
    RunUnfolds(m, p, hi, d, i, j);
    TokensUnfold(m, p, hi, d, i, j);
    TokensAgree(m, m', j + 1, hi, d);
  }

  lemma {:induction false} RunFindsTokens(m: seq<byte>, p: nat, hi: nat, d: seq<byte>)
    requires p <= hi < |m|
    ensures Found(m, TokRun(m, p, hi, d), Tokens(m, p, hi, d), hi)
    decreases hi - p
  {
    var i := SkipIn(m, p, hi, d);
    var j := SkipOut(m, i, hi, d);
    StepIs(m, p, hi, d, i, j);
    if j == hi {
      RunFindsLast(m, p, hi, d, i);
    } else {
      RunFindsTokens(m[j := 0], j + 1, hi, d);
      RunFindsMore(m, p, hi, d, i, j, m[j := 0]);
    }
  }

  lemma RunFindsMore(m: seq<byte>, p: nat, hi: nat, d: seq<byte>, i: nat, j: nat, m': seq<byte>)
    requires p <= hi < |m| && i == SkipIn(m, p, hi, d) && j == SkipOut(m, i, hi, d) && i < j < hi && m' == m[j := 0]
    requires Found(m', TokRun(m', j + 1, hi, d), Tokens(m', j + 1, hi, d), hi)
    ensures Found(m, TokRun(m, p, hi, d), Tokens(m, p, hi, d), hi)
  {
    RunAndTokensUnfold(m, p, hi, d, i, j, m');
    FoundOneMore(m, TokRun(m', j + 1, hi, d), (i, j), Tokens(m', j + 1, hi, d), hi,
                 TokRun(m, p, hi, d), Tokens(m, p, hi, d));
  }

  /** What section 7.24.5.8 of ISO C11 asks of calling `strtok` on a string until it returns null: the results are the
      starts of exactly the maximal delimiter-free runs, in order; in the end each of them is a terminated string of
      its own; and no byte but the one behind each run has changed. */
  ghost predicate SplitsIntoTokens(m: seq<byte>, p: nat, d: seq<byte>, results: seq<int>, final: seq<byte>)
    requires IsCString(m, p)
  {
    var hi := End(m, p);
    && Increasing(results)
    && (forall i: int :: i in results <==> i >= 0 && exists j: nat :: MaximalRun(m, p, hi, d, i, j))
    && (forall i: nat, j: nat | MaximalRun(m, p, hi, d, i, j) :: IsCString(final, i) && Str(final, i) == m[i..j])
    && |final| == |m|
    && (forall k | 0 <= k < |m| && final[k] != m[k] ::
          final[k] == 0 && k < hi && exists i: nat :: MaximalRun(m, p, hi, d, i, k))
  }

  lemma StrTokFindsAllTokens(m: seq<byte>, p: nat, d: seq<byte>)
    requires IsCString(m, p)
    ensures var run := TokRun(m, p, End(m, p), d); SplitsIntoTokens(m, p, d, run.results, run.mem)
  {
    var hi := End(m, p);
    var ts := Tokens(m, p, hi, d);
    var final := TokRun(m, p, hi, d).mem;
    RunFindsTokens(m, p, hi, d);
    TokensLieWithin(m, p, hi, d);
    forall t: (nat, nat) ensures t in ts <==> MaximalRun(m, p, hi, d, t.0, t.1) {
      TokensAreMaximalRuns(m, p, p, hi, d, t);
    }
    forall i: nat, j: nat | MaximalRun(m, p, hi, d, i, j)
      ensures IsCString(final, i) && Str(final, i) == m[i..j]
      ensures i in Starts(ts)
    {
      TokenIsCut(m, final, ts, p, hi, d, i, j);
    }
    forall i: int | i in Starts(ts) ensures i >= 0 && exists j: nat :: MaximalRun(m, p, hi, d, i, j) {
      var k :| 0 <= k < |ts| && Starts(ts)[k] == i;
      assert ts[k] in ts;
    }
    forall k | 0 <= k < |m| && final[k] != m[k]
      ensures final[k] == 0 && k < hi && exists i: nat :: MaximalRun(m, p, hi, d, i, k)
    {
      var a :| 0 <= a < |ts| && ts[a].1 == k;
      assert ts[a] in ts;
    }
  }

  lemma TokenIsCut(m: seq<byte>, final: seq<byte>, ts: seq<(nat, nat)>, p: nat, hi: nat, d: seq<byte>, i: nat, j: nat)
    requires IsCString(m, p) && hi == End(m, p)
    requires CutAtEnds(m, final, ts, hi)
    requires forall t: (nat, nat) :: t in ts <==> MaximalRun(m, p, hi, d, t.0, t.1)
    requires MaximalRun(m, p, hi, d, i, j)
    ensures IsCString(final, i) && Str(final, i) == m[i..j]
    ensures i in Starts(ts)
  {
    assert (i, j) in ts;
    var b :| 0 <= b < |ts| && ts[b] == (i, j);
    assert Starts(ts)[b] == i && IsTokenEnd(ts, j);
    NoCutInside(m, ts, p, hi, d, i, j);
    EndIs(final, i, j);
  }

  /** No token ends inside another one. */
  lemma NoCutInside(m: seq<byte>, ts: seq<(nat, nat)>, p: nat, hi: nat, d: seq<byte>, i: nat, j: nat)
    requires hi <= |m| && MaximalRun(m, p, hi, d, i, j)
    requires forall t: (nat, nat) :: t in ts <==> MaximalRun(m, p, hi, d, t.0, t.1)
    ensures forall k | i <= k < j :: !IsTokenEnd(ts, k)
  {
    forall k | i <= k < j ensures !IsTokenEnd(ts, k) {
      assert forall a | 0 <= a < |ts| :: ts[a] in ts;
    }
  }

  // ---------- the calls ----------

  /** Calls `strtok` on a string, and then with null until it returns null. */
  method AllTokens(t: Tokenizer, str: nat, delim: seq<byte>) returns (results: seq<int>)
    requires IsCString(t.mem[..], str) && IsCString(delim, 0)
    modifies t, t.mem
    ensures t.Valid() && t.p == -1
    ensures Run(results, t.mem[..]) == TokRun(old(t.mem[..]), str, End(old(t.mem[..]), str), Str(delim, 0))
    ensures SplitsIntoTokens(old(t.mem[..]), str, Str(delim, 0), results, t.mem[..])
  {
    ghost var m, hi, d := t.mem[..], End(t.mem[..], str), Str(delim, 0);
    ghost var run := TokRun(m, str, hi, d);
    results := [];
    var r := t.StrTok(str, delim);
    assert run.results == [] + run.results;
    while r != -1
      invariant t.Valid() && t.hi == hi < t.mem.Length && t.p <= hi && (r == -1 ==> t.p == -1)
      invariant run == Run(results + Pending(t.mem[..], t.p, hi, d, r).results, Pending(t.mem[..], t.p, hi, d, r).mem)
      decreases if r == -1 then 0 else if t.p == -1 then 1 else hi - t.p + 2
    {
      ghost var m', p, last := t.mem[..], t.p, r;
      results := results + [r];
      r := t.StrTok(-1, delim);
      PendingStep(m', p, hi, d, last, t.mem[..], t.p, r, results[..|results| - 1]);
    }
    assert results + [] == results;
    StrTokFindsAllTokens(m, str, d);
  }

  /** One more call. */
  lemma PendingStep(m: seq<byte>, p: int, hi: nat, d: seq<byte>, last: int, m': seq<byte>, p': int, r: int,
                    results: seq<int>)
    requires -1 <= p <= hi < |m| && last != -1
    requires Call(m', p', r) == if p == -1 then Call(m, -1, -1) else TokStep(m, p, hi, d)
    ensures p' <= hi < |m'| && (r == -1 ==> p' == -1) && (p' == -1 || p < p')
    ensures results + Pending(m, p, hi, d, last).results == results + [last] + Pending(m', p', hi, d, r).results
    ensures Pending(m, p, hi, d, last).mem == Pending(m', p', hi, d, r).mem
  {
    if p != -1 {
      var i := SkipIn(m, p, hi, d);
      RunIsNotEmpty(m, p, hi, d, i, SkipOut(m, i, hi, d));
    }
  }
}
