/** The Python `str` operations that the documentation generator is written with,
    and the notion of "the words of a text" that its wrapping theorems speak about. */
module PyString {

  /** The characters that `str.strip` and its relatives remove. */
  predicate IsSpace(c: char) {
    var u := c as int;
    || 0x09 <= u <= 0x0D || 0x1C <= u <= 0x20 || u == 0x85 || u == 0xA0 || u == 0x1680
    || 0x2000 <= u <= 0x200A || u == 0x2028 || u == 0x2029 || u == 0x202F || u == 0x205F || u == 0x3000
  }

  /** The characters that end a line for `str.splitlines`. */
  predicate IsBreak(c: char) {
    var u := c as int;
    0x0A <= u <= 0x0D || 0x1C <= u <= 0x1E || u == 0x85 || u == 0x2028 || u == 0x2029
  }

  predicate Blank(s: string) {
    forall i | 0 <= i < |s| :: IsSpace(s[i])
  }

  function Spaces(n: nat): (s: string)
    ensures |s| == n && forall i | 0 <= i < n :: s[i] == ' '
  {
    seq(n, i => ' ')
  }

  /** The number of leading ' ' characters: `len(s) - len(s.lstrip(' '))`. */
  function Indent(s: string): (n: nat)
    ensures n <= |s|
    ensures s[..n] == Spaces(n)
    ensures n < |s| ==> s[n] != ' '
  {
    if s == "" || s[0] != ' ' then 0 else
      var n := Indent(s[1..]) + 1;
      assert s[..n] == [s[0]] + s[1..][..n - 1];
      n
  }

  /** One more space behind the spaces from k on. */
  lemma SpaceBehind(s: string, k: nat)
    requires k < |s| && IsSpace(s[|s| - 1]) && Blank(s[..|s| - 1][k..])
    ensures Blank(s[k..]) && s[..|s| - 1][..k] == s[..k]
  {
    forall i | 0 <= i < |s| - k ensures IsSpace(s[k..][i]) {
      assert i < |s| - k - 1 ==> s[..|s| - 1][k..][i] == s[k + i];
    }
  }

  /** The first index from i on that is the end or holds no space. */
  function SkipSpaces(s: string, i: nat): (n: nat)
    requires i <= |s|
    ensures i <= n <= |s| && (forall k | i <= k < n :: IsSpace(s[k])) && (n < |s| ==> !IsSpace(s[n]))
    decreases |s| - i
  {
    if i < |s| && IsSpace(s[i]) then SkipSpaces(s, i + 1) else i
  }

  function LStrip(s: string): (r: string)
    ensures |r| <= |s| && r == s[|s| - |r|..] && Blank(s[..|s| - |r|])
    ensures r != "" ==> !IsSpace(r[0])
  {
    s[SkipSpaces(s, 0)..]
  }

  function RStrip(s: string): (r: string)
    ensures r <= s && Blank(s[|r|..])
    ensures r != "" ==> !IsSpace(r[|r| - 1])
  {
    if s == "" || !IsSpace(s[|s| - 1]) then s
    else
      var r := RStrip(s[..|s| - 1]);
      SpaceBehind(s, |r|);
      r
  }

  function Strip(s: string): (r: string)
    ensures r != "" ==> !IsSpace(r[0]) && !IsSpace(r[|r| - 1])
    ensures |r| <= |s|
  {
    LStrip(RStrip(s))
  }

  lemma BlankRStrip(s: string)
    ensures RStrip(s) == "" <==> Blank(s)
  {
    if RStrip(s) == "" {
      assert s[0..] == s;
    }
  }

  /** Stripping takes away whitespace at both ends and nothing else. */
  lemma {:induction false} StripIs(s: string) returns (front: string, behind: string)
    ensures s == front + Strip(s) + behind && Blank(front) && Blank(behind)
  {
    var t, r := RStrip(s), LStrip(RStrip(s));
    var k := |t| - |r|;
    front, behind := t[..k], s[|t|..];
    assert t == t[..k] + t[k..];
    assert s == t + behind;
  }

  /** `s.split(' ')`: the pieces between single spaces, so that runs of spaces give empty pieces. */
  function Split(s: string): (ws: seq<string>)
    ensures |ws| > 0
  {
    if s == "" then [""]
    else
      var rest := Split(s[1..]);
      if s[0] == ' ' then [""] + rest else [[s[0]] + rest[0]] + rest[1..]
  }

  /** `' '.join(ws)`. */
  function Join(ws: seq<string>): string {
    if |ws| == 0 then "" else if |ws| == 1 then ws[0] else ws[0] + " " + Join(ws[1..])
  }

  /** Joining is the inverse of splitting, and no piece holds a space. */
  lemma {:induction false} JoinSplit(s: string)
    ensures Join(Split(s)) == s
    ensures forall w | w in Split(s) :: ' ' !in w
  {
    if s == "" {
    } else {
      var rest, ws := Split(s[1..]), Split(s);
      JoinSplit(s[1..]);
      assert s == [s[0]] + s[1..];
      if s[0] == ' ' {
        assert ws[1..] == rest;
      } else {
        assert ws[1..] == rest[1..];
      }
    }
  }

  lemma {:induction false} SplitFirst(w: string, rest: string)
    requires ' ' !in w
    ensures Split(w) == [w]
    ensures Split(w + " " + rest) == [w] + Split(rest)
  {
    if w == "" {
      assert ("" + " " + rest)[1..] == rest;
    } else {
      SplitFirst(w[1..], rest);
      assert (w + " " + rest)[1..] == w[1..] + " " + rest;
      assert [w[0]] + w[1..] == w;
    }
  }

  /** And splitting is the inverse of joining pieces without spaces. */
  lemma {:induction false} SplitJoin(ws: seq<string>)
    requires ws != [] && forall w | w in ws :: ' ' !in w
    ensures Split(Join(ws)) == ws
  {
    assert ws[0] in ws;
    if |ws| == 1 {
      SplitFirst(ws[0], "");
    } else {
      assert forall w | w in ws[1..] :: w in ws;
      SplitJoin(ws[1..]);
      SplitFirst(ws[0], Join(ws[1..]));
    }
  }

  /** `s.splitlines()`. */
  function SplitLines(s: string): seq<string> {
    if s == "" then []
    else
      var i := LineLength(s);
      if i == |s| then [s]
      else [s[..i]] + SplitLines(s[i + BreakLength(s, i)..])
  }

  function LineLength(s: string): (n: nat)
    ensures n <= |s|
    ensures forall i | 0 <= i < n :: !IsBreak(s[i])
    ensures n < |s| ==> IsBreak(s[n])
  {
    if s == "" || IsBreak(s[0]) then 0 else 1 + LineLength(s[1..])
  }

  /** "\r\n" is one line end. */
  function BreakLength(s: string, i: nat): (n: nat)
    requires i < |s| && IsBreak(s[i])
    ensures 1 <= n && i + n <= |s| && Blank(s[i..i + n])
  {
    if s[i] == '\r' && i + 1 < |s| && s[i + 1] == '\n' then 2 else 1
  }

  // ---------- words ----------

  /** The maximal runs of characters that are not whitespace, in order. */
  function Words(s: string): (ws: seq<string>)
    ensures s != "" && !IsSpace(s[0]) ==> |ws| > 0
  {
    if s == "" then []
    else if IsSpace(s[0]) then Words(s[1..])
    else if |s| == 1 || IsSpace(s[1]) then [[s[0]]] + Words(s[1..])
    else
      var ws := Words(s[1..]);
      [[s[0]] + ws[0]] + ws[1..]
  }

  function WordsOfAll(lines: seq<string>): seq<string> {
    if lines == [] then [] else Words(lines[0]) + WordsOfAll(lines[1..])
  }

  lemma {:induction false} WordsAppend(a: string, b: string)
    requires a == "" || b == "" || IsSpace(a[|a| - 1]) || IsSpace(b[0])
    ensures Words(a + b) == Words(a) + Words(b)
  {
    if a == "" {
      assert a + b == b;
    } else if b == "" {
      assert a + b == a;
    } else {
      WordsAppend(a[1..], b);
      assert (a + b)[1..] == a[1..] + b;
      if |a| == 1 && !IsSpace(a[0]) {
        assert (a + b)[1] == b[0];
      }
    }
  }

  lemma {:induction false} WordsBlank(s: string)
    requires Blank(s)
    ensures Words(s) == []
  {
    if s == "" {
    } else {
      WordsBlank(s[1..]);
    }
  }

  lemma WordsSurrounded(pre: string, s: string, post: string)
    requires Blank(pre) && Blank(post)
    ensures Words(pre + s + post) == Words(s)
  {
    WordsBlank(pre);
    WordsBlank(post);
    WordsAppend(pre, s);
    WordsAppend(pre + s, post);
  }

  lemma WordsRStrip(s: string)
    ensures Words(RStrip(s)) == Words(s)
  {
    var r := RStrip(s);
    assert s == "" + r + s[|r|..];
    WordsSurrounded("", r, s[|r|..]);
  }

  lemma WordsStrip(s: string)
    ensures Words(Strip(s)) == Words(s)
  {
    WordsRStrip(s);
    WordsLStrip(RStrip(s));
  }

  lemma BlankInFront(lead: string, r: string, t: string)
    requires Blank(lead) && |lead| <= |t| && lead == t[..|lead|] && r == t[|lead|..]
    ensures Words(t) == Words(r)
  {
    assert t == lead + r + "";
    WordsSurrounded(lead, r, "");
  }

  lemma WordsLStrip(t: string)
    ensures Words(LStrip(t)) == Words(t)
  {
    var r := LStrip(t);
    var k := |t| - |r|;
    BlankInFront(t[..k], r, t);
  }

  lemma Assoc<T>(a: seq<T>, b: seq<T>, c: seq<T>)
    ensures (a + b) + c == a + (b + c)
  {
  }

  lemma {:induction false} WordsOfAllAppend(a: seq<string>, b: seq<string>)
    ensures WordsOfAll(a + b) == WordsOfAll(a) + WordsOfAll(b)
  {
    if a == [] {
      assert a + b == b;
    } else {
      assert (a + b)[1..] == a[1..] + b;
      WordsOfAllAppend(a[1..], b);
      Assoc(Words(a[0]), WordsOfAll(a[1..]), WordsOfAll(b));
    }
  }

  lemma WordsJoin(ws: seq<string>)
    ensures Words(Join(ws)) == WordsOfAll(ws)
  {
    if |ws| > 1 {
      WordsJoin(ws[1..]);
      WordsAppend(ws[0], " " + Join(ws[1..]));
      assert ws[0] + " " + Join(ws[1..]) == ws[0] + (" " + Join(ws[1..]));
      WordsSurrounded(" ", Join(ws[1..]), "");
      assert " " + Join(ws[1..]) + "" == " " + Join(ws[1..]);
    }
  }

  lemma WordsOfAllCons(s: string, rest: seq<string>)
    ensures WordsOfAll([s] + rest) == Words(s) + WordsOfAll(rest)
  {
    assert ([s] + rest)[1..] == rest;
  }

  lemma CutTwice(s: string, i: nat, k: nat)
    requires i <= k <= |s|
    ensures s == s[..i] + s[i..k] + s[k..]
  {
  }

  lemma WordsAcrossBreak(a: string, gap: string, b: string)
    requires gap != "" && Blank(gap)
    ensures Words(a + gap + b) == Words(a) + Words(b)
  {
    WordsAppend(a, gap);
    WordsBlank(gap);
    WordsAppend(a + gap, b);
  }

  lemma {:induction false} WordsSplitLines(s: string)
    ensures WordsOfAll(SplitLines(s)) == Words(s)
    decreases |s|
  {
    if s == "" {
    } else {
      var i := LineLength(s);
      if i < |s| {
        var k := i + BreakLength(s, i);
        WordsSplitLines(s[k..]);
        WordsAcrossBreak(s[..i], s[i..k], s[k..]);
        CutTwice(s, i, k);
        WordsOfAllCons(s[..i], SplitLines(s[k..]));
      } else {
        WordsOfAllCons(s, []);
        assert [s] + [] == [s];
      }
    }
  }
}
