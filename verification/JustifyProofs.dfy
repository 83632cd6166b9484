/** What `wrap_justify` promises: the exact width, fair gaps, the same words. */
module JustifyProofs {
  import opened PyString
  import opened Justify
  import opened GapProofs

  function Woven(leading: string, words: seq<string>, gaps: seq<nat>): string
    requires |gaps| + 1 == |words|
  {
    leading + Weave(words, gaps) + words[|gaps|]
  }

  lemma RebuiltIsWoven(leading: string, words: seq<string>, total: int) returns (gaps: seq<nat>)
    requires 0 < |words| - 1 <= total
    ensures |gaps| + 1 == |words|
    ensures Rebuilt(leading, words, total) == Woven(leading, words, gaps)
    ensures FairGaps(gaps, IsBullet(words[0]), total)
  {
    var n := |words| - 1;
    var bullet := IsBullet(words[0]);
    gaps := Gaps(bullet, total, n, n);
    SpreadIsWeave(words, bullet, total, n, n);
    FairlyPlaced(bullet, total, n);
  }

  lemma {:induction false} GapsAreFair(text: string, width: int, threshold: real) returns (gaps: seq<nat>)
    requires width != 0 || text != ""
    requires Rewrites(text, width, threshold)
    ensures var words := Split(Strip(text));
      && |gaps| + 1 == |words|
      && Justified(text, width, threshold) == Woven(Spaces(Indent(text)), words, gaps)
      && FairGaps(gaps, words[0] == "-" || words[0] == "*", width - (|text| - (|words| - 1)))
  {
    var words := Split(Strip(text));
    gaps := RebuiltIsWoven(Spaces(Indent(text)), words, TotalSpaces(text, width, |words| - 1));
  }

  // ---------- the length ----------

  function Lengths(words: seq<string>, k: nat): nat
    requires k <= |words|
  {
    if k == 0 then 0 else Lengths(words, k - 1) + |words[k - 1]|
  }

  lemma {:induction false} LengthsTail(words: seq<string>, k: nat)
    requires 0 < k <= |words|
    ensures Lengths(words, k) == |words[0]| + Lengths(words[1..], k - 1)
  {
    if k > 1 { LengthsTail(words, k - 1); }
  }

  lemma {:induction false} JoinLength(words: seq<string>)
    requires words != []
    ensures |Join(words)| == Lengths(words, |words|) + |words| - 1
  {
    LengthsTail(words, |words|);
    if |words| > 1 { JoinLength(words[1..]); }
  }

  lemma {:induction false} SpreadLength(words: seq<string>, bullet: bool, total: int, n: nat, k: nat)
    requires 0 < n <= total && k <= |words|
    ensures |Spread(words, bullet, total, n, k)| == Lengths(words, k) + Placed(bullet, total, n, k)
  {
    if k == 0 {
    } else {
      SpreadLength(words, bullet, total, n, k - 1);
    }
  }

  /** Characters around the words that are neither indent nor kept: whitespace other than ' ' in front,
      and any whitespace behind. */
  function Stripped(text: string): (n: int)
    ensures Strip(text) != "" ==> n >= 0
  {
    var t := RStrip(text);
    var r := Strip(text);
    if r != "" then
      assert text[|t| - |r|] == r[0];
      assert text[..Indent(text)] == Spaces(Indent(text));
      |text| - Indent(text) - |r|
    else |text| - Indent(text) - |r|
  }

  lemma ManyPiecesNotEmpty(s: string)
    requires |Split(s)| > 1
    ensures s != ""
  {
  }

  lemma {:induction false} RebuiltLength(leading: string, words: seq<string>, total: int)
    requires 0 < |words| - 1 <= total
    ensures var n := |words| - 1;
      |Rebuilt(leading, words, total)|
        == |leading| + |Join(words)| - n + (if IsBullet(words[0]) && n == 1 then 1 else total)
  {
    var n := |words| - 1;
    SpreadLength(words, IsBullet(words[0]), total, n, n);
    JoinLength(words);
    CeilWhole(n, total);
  }

  lemma {:induction false} JustifiedLength(text: string, width: int, threshold: real)
    requires width != 0 || text != ""
    requires Rewrites(text, width, threshold)
    ensures var words := Split(Strip(text));
      |Justified(text, width, threshold)| ==
        (if IsBullet(words[0]) && |words| == 2 then |text| else width) - Stripped(text)
  {
    LengthOfLine(text, width, threshold, Strip(text), Split(Strip(text)), Justified(text, width, threshold));
  }

  lemma {:induction false} LengthOfLine(text: string, width: int, threshold: real, stripped: string,
                                        words: seq<string>, line: string)
    requires width != 0 || text != ""
    requires Rewrites(text, width, threshold)
    requires stripped == Strip(text) && words == Split(stripped) && line == Justified(text, width, threshold)
    ensures |words| > 1
    ensures |line|
         == (if IsBullet(words[0]) && |words| == 2 then |text| else width) - (|text| - Indent(text) - |stripped|)
  {
    JustifiedIsRebuilt(text, width, threshold, words, line);
    JoinSplit(stripped);
    RebuiltLineLength(line, Indent(text), words, |text|, width);
  }

  lemma {:induction false} JustifiedIsRebuilt(text: string, width: int, threshold: real, words: seq<string>,
                                              line: string)
    requires width != 0 || text != ""
    requires Rewrites(text, width, threshold)
    requires words == Split(Strip(text)) && line == Justified(text, width, threshold)
    ensures |words| > 1 && |text| <= width
    ensures line == Rebuilt(Spaces(Indent(text)), words, width - (|text| - (|words| - 1)))
  {
  }

  /** The length of the line that is rebuilt for a text of the given length. */
  lemma {:induction false} RebuiltLineLength(line: string, indent: nat, words: seq<string>, length: nat, width: int)
    requires |words| > 1 && length <= width
    requires line == Rebuilt(Spaces(indent), words, width - (length - (|words| - 1)))
    ensures |line| == (if IsBullet(words[0]) && |words| == 2 then length else width) - (length - indent - |Join(words)|)
  {
    RebuiltLength(Spaces(indent), words, width - (length - (|words| - 1)));
  }

  /** Justification is exact: the rewritten line has length `width` if and only if nothing but an indent of
      spaces surrounds the words, and the line is not a bullet with a single word too short for the width. */
  lemma {:induction false} JustifyIsExact(text: string, width: int, threshold: real)
    requires width != 0 || text != ""
    requires Rewrites(text, width, threshold)
    ensures var words := Split(Strip(text));
      |Justified(text, width, threshold)| == width
      <==> Stripped(text) == 0 && (IsBullet(words[0]) && |words| == 2 ==> |text| == width)
    ensures |Justified(text, width, threshold)| <= width
  {
    JustifiedLength(text, width, threshold);
    ManyPiecesNotEmpty(Strip(text));
  }

  /** A bullet item of a single word is never stretched. */
  lemma {:induction false} BulletItemKeepsItsLength(bullet: string, word: string, width: int, threshold: real)
    requires bullet == "-" || bullet == "*"
    requires word != "" && (forall c | c in word :: !IsSpace(c)) && width > 0
    ensures |Justified(bullet + " " + word, width, threshold)| == |word| + 2
  {
    var text := bullet + " " + word;
    SplitBulletItem(bullet, word);
    StripClean(text);
    IndentClean(text);
    if Rewrites(text, width, threshold) {
      JustifiedLength(text, width, threshold);
    }
  }

  /** So at width 10 this line keeps its 9 characters. */
  lemma {:induction false} JustifyIsNotAlwaysExact()
    ensures |Justified("- abcdefg", 10, 0.8)| == 9
  {
    assert "-" + " " + "abcdefg" == "- abcdefg";
    BulletItemKeepsItsLength("-", "abcdefg", 10, 0.8);
  }

  lemma StripClean(s: string)
    requires s != "" && !IsSpace(s[0]) && !IsSpace(s[|s| - 1])
    ensures Strip(s) == s
  {
  }

  lemma IndentClean(s: string)
    requires s != "" && s[0] != ' '
    ensures Indent(s) == 0
  {
  }

  lemma SplitBulletItem(bullet: string, word: string)
    requires ' ' !in bullet && ' ' !in word
    ensures Split(bullet + " " + word) == [bullet, word]
  {
    var words := [bullet, word];
    assert words[1..] == [word];
    SplitJoin(words);
  }

  /** Behind a bullet the spaces may be far from even: with any word of 74 characters and two of one character, at
      width 100, the gaps are 1, 15 and 7. */
  lemma {:induction false} BulletLineIsUneven(word: string)
    requires |word| == 74 && ' ' !in word
    ensures Justified("- " + word + " d e", 100, 0.8) == "- " + word + Spaces(15) + "d" + Spaces(7) + "e"
  {
    var text := "- " + word + " d e";
    FourWords(word);
    StripClean(text);
    IndentClean(text);
    assert Justified(text, 100, 0.8) == Rebuilt(Spaces(0), ["-", word, "d", "e"], 23);
    RebuiltBullet(word);
  }

  lemma RebuiltBullet(word: string)
    ensures Rebuilt(Spaces(0), ["-", word, "d", "e"], 23) == "- " + word + Spaces(15) + "d" + Spaces(7) + "e"
  {
    var words := ["-", word, "d", "e"];
    BulletGapsAreUneven();
    SpreadIsWeave(words, true, 23, 3, 3);
    WeaveThree(words, [1, 15, 7]);
    assert "-" + Spaces(1) == "- " && Spaces(0) == "";
    var line := "- " + word + Spaces(15) + "d" + Spaces(7);
    assert "" + line == line;
  }

  lemma FourWords(word: string)
    requires ' ' !in word
    ensures Split("- " + word + " d e") == ["-", word, "d", "e"]
  {
    var words := ["-", word, "d", "e"];
    var tail := words[2..];
    assert tail[1..] == ["e"] && Join(tail) == "d e";
    assert words[1..][1..] == tail && Join(words[1..]) == word + " " + "d e";
    assert "-" + " " + (word + " " + "d e") == "- " + word + " d e";
    SplitJoin(words);
  }

  lemma WeaveThree(words: seq<string>, gaps: seq<nat>)
    requires |gaps| == 3 && |words| > 3
    ensures Weave(words, gaps)
      == words[0] + Spaces(gaps[0]) + words[1] + Spaces(gaps[1]) + words[2] + Spaces(gaps[2])
  {
    var two := gaps[..2];
    var one := two[..1];
    assert one[..0] == [] && "" + words[0] == words[0];
    assert Weave(words, one) == words[0] + Spaces(gaps[0]);
  }

  // ---------- the words ----------

  lemma {:induction false} WordsOfSpread(words: seq<string>, bullet: bool, total: int, n: nat, k: nat)
    requires 0 < n <= total && k <= |words|
    ensures Words(Spread(words, bullet, total, n, k)) == WordsOfAll(words[..k])
    ensures k > 0 ==> IsSpace(EndOf(Spread(words, bullet, total, n, k)))
    ensures k == 0 ==> Spread(words, bullet, total, n, k) == ""
  {
    if k == 0 {
    } else {
      WordsOfSpread(words, bullet, total, n, k - 1);
      var before := Spread(words, bullet, total, n, k - 1);
      var gap := Spaces(Gap(bullet, total, n, k - 1));
      WordsAppend(before, words[k - 1]);
      WordsSurrounded("", before + words[k - 1], gap);
      assert "" + (before + words[k - 1]) + gap == before + words[k - 1] + gap;
      WordsOfAllSnoc(words[..k - 1], words[k - 1]);
      assert words[..k] == words[..k - 1] + [words[k - 1]];
    }
  }

  function EndOf(s: string): char {
    if s == "" then ' ' else s[|s| - 1]
  }

  lemma WordsOfAllSnoc(ws: seq<string>, w: string)
    ensures WordsOfAll(ws + [w]) == WordsOfAll(ws) + Words(w)
  {
    WordsOfAllAppend(ws, [w]);
    WordsOfAllCons(w, []);
    assert [w] + [] == [w];
  }

  lemma {:induction false} WordsOfRebuilt(indent: nat, words: seq<string>, total: int)
    requires 0 < |words| - 1 <= total
    ensures Words(Rebuilt(Spaces(indent), words, total)) == WordsOfAll(words)
  {
    var n := |words| - 1;
    var lead, body := Spaces(indent), Spread(words, IsBullet(words[0]), total, n, n);
    WordsOfSpread(words, IsBullet(words[0]), total, n, n);
    WordsAppend(body, words[n]);
    WordsBlank(lead);
    WordsAppend(lead, body + words[n]);
    Assoc(lead, body, words[n]);
    WordsOfAllSnoc(words[..n], words[n]);
    InitAndLast(words);
  }

  lemma InitAndLast<T>(s: seq<T>)
    requires s != []
    ensures s == s[..|s| - 1] + [s[|s| - 1]]
  {
  }

  lemma {:induction false} JustifyKeepsWords(text: string, width: int, threshold: real)
    requires width != 0 || text != ""
    ensures Words(Justified(text, width, threshold)) == Words(text)
  {
    if Rewrites(text, width, threshold) {
      var words := Split(Strip(text));
      WordsOfRebuilt(Indent(text), words, TotalSpaces(text, width, |words| - 1));
      JoinSplit(Strip(text));
      WordsJoin(words);
      WordsStrip(text);
    }
  }

  // ---------- the right end ----------

  lemma {:induction false} JoinEnd(words: seq<string>)
    requires words != []
    ensures var last := words[|words| - 1];
      |last| <= |Join(words)| && Join(words)[|Join(words)| - |last|..] == last
    ensures |words| > 1 && words[|words| - 1] == "" ==> EndOf(Join(words)) == ' '
  {
    if |words| <= 1 {
    } else {
      JoinEnd(words[1..]);
      EndOfSum(words[0] + " ", Join(words[1..]), words[|words| - 1]);
    }
  }

  lemma EndOfSum(front: string, s: string, last: string)
    requires |last| <= |s| && s[|s| - |last|..] == last
    ensures (front + s)[|front + s| - |last|..] == last
    ensures s != "" ==> EndOf(front + s) == EndOf(s)
    ensures s == "" && front != "" ==> EndOf(front + s) == EndOf(front)
  {
  }

  lemma {:induction false} RebuiltEnd(leading: string, words: seq<string>, total: int, s: string)
    requires 0 < |words| - 1 <= total
    requires Join(words) == s && s != "" && !IsSpace(EndOf(s))
    ensures var r := Rebuilt(leading, words, total); r != "" && !IsSpace(EndOf(r))
  {
    JoinEnd(words);
    var last := words[|words| - 1];
    assert last != "";
    assert EndOf(last) == EndOf(s);
  }

  /** Nothing is left to strip on the right of a justified line. */
  lemma {:induction false} JustifiedEnd(text: string, width: int, threshold: real)
    requires width != 0 || text != ""
    requires RStrip(text) == text
    ensures RStrip(Justified(text, width, threshold)) == Justified(text, width, threshold)
    ensures text != "" ==> Justified(text, width, threshold) != ""
  {
    if Rewrites(text, width, threshold) {
      var words := Split(Strip(text));
      ManyPiecesNotEmpty(Strip(text));
      JoinSplit(Strip(text));
      RebuiltEnd(Spaces(Indent(text)), words, TotalSpaces(text, width, |words| - 1), Strip(text));
    }
  }
}
