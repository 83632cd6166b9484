/** `DocTextWrapper.to_paragraphs`: the paragraphs of a text are the blocks of lines between its empty lines. */
module TextParagraphs {
  import opened PyString

  function Extended(paragraph: string, line: string): string {
    if paragraph == "" then RStrip(line) else paragraph + " " + Strip(line)
  }

  /** The paragraphs of the lines still to read, when `paragraph` has been collected so far. */
  function Paragraphs(paragraph: string, lines: seq<string>): seq<string>
    decreases |lines|
  {
    if lines == [] then (if paragraph != "" then [paragraph] else [])
    else if lines[0] == "" then [paragraph] + Paragraphs("", lines[1..])
    else Paragraphs(Extended(paragraph, lines[0]), lines[1..])
  }

  function OrBlankLine(lines: seq<string>): seq<string> {
    if lines == [] then [""] else lines
  }

  function ParagraphsOf(text: string): seq<string> {
    OrBlankLine(Paragraphs("", SplitLines(text)))
  }

  // ---------- blocks of lines ----------

  /** Blocks of lines that are not empty; there is at least one, which may hold no line. */
  predicate AreBlocks(blocks: seq<seq<string>>) {
    blocks != [] && forall b | b in blocks :: "" !in b
  }

  /** The lines of all blocks, with one empty line after every block but the last. */
  function Unlines(blocks: seq<seq<string>>): seq<string>
    requires blocks != []
  {
    if |blocks| == 1 then blocks[0] else blocks[0] + [""] + Unlines(blocks[1..])
  }

  function StripAll(lines: seq<string>): seq<string> {
    if lines == [] then [] else [Strip(lines[0])] + StripAll(lines[1..])
  }

  /** The text of a block: its first line stripped on the right, and the others stripped, joined with single spaces.
      Lines of whitespace in front of it do not count. */
  function BlockText(block: seq<string>): string {
    if block == [] then ""
    else if Blank(block[0]) then BlockText(block[1..])
    else Join([RStrip(block[0])] + StripAll(block[1..]))
  }

  function BlockTexts(blocks: seq<seq<string>>): seq<string> {
    if blocks == [] then [] else [BlockText(blocks[0])] + BlockTexts(blocks[1..])
  }

  /** One paragraph for every block; a last block without text makes none. */
  function ParagraphTexts(blocks: seq<seq<string>>): seq<string>
    requires blocks != []
  {
    var last := |blocks| - 1;
    if BlockText(blocks[last]) == "" then BlockTexts(blocks[..last]) else BlockTexts(blocks)
  }

  /** What the line loop collects from a block. */
  function Collected(paragraph: string, block: seq<string>): string
    decreases |block|
  {
    if block == [] then paragraph else Collected(Extended(paragraph, block[0]), block[1..])
  }

  lemma {:induction false} JoinCons(a: string, rest: seq<string>)
    ensures Join([a] + rest) == if rest == [] then a else a + " " + Join(rest)
  {
    assert ([a] + rest)[1..] == rest;
  }

  lemma {:induction false} JoinFirstTwo(a: string, b: string, rest: seq<string>)
    ensures Join([a] + ([b] + rest)) == Join([a + " " + b] + rest)
  {
    JoinCons(a, [b] + rest);
    JoinCons(b, rest);
    JoinCons(a + " " + b, rest);
    if rest != [] {
      Assoc(a + " ", b + " ", Join(rest));
      Assoc(a + " ", b, " ");
    }
  }

  lemma {:induction false} CollectedIsJoined(paragraph: string, block: seq<string>)
    requires paragraph != ""
    ensures Collected(paragraph, block) == Join([paragraph] + StripAll(block))
    decreases |block|
  {
    if block == [] {
      JoinCons(paragraph, []);
    } else {
      CollectedIsJoined(paragraph + " " + Strip(block[0]), block[1..]);
      JoinFirstTwo(paragraph, Strip(block[0]), StripAll(block[1..]));
    }
  }

  lemma {:induction false} CollectedIsBlockText(block: seq<string>)
    ensures Collected("", block) == BlockText(block)
  {
    if block == [] {
    } else {
      BlankRStrip(block[0]);
      if Blank(block[0]) {
        CollectedIsBlockText(block[1..]);
      } else {
        CollectedIsJoined(RStrip(block[0]), block[1..]);
      }
    }
  }

  /** The line loop on a block and the empty line behind it, or on the last block. */
  lemma {:induction false} ParagraphsAtBlock(paragraph: string, block: seq<string>, rest: seq<string>)
    requires "" !in block
    ensures Paragraphs(paragraph, block + ([""] + rest)) == [Collected(paragraph, block)] + Paragraphs("", rest)
    ensures Paragraphs(paragraph, block)
      == var text := Collected(paragraph, block); if text != "" then [text] else []
    decreases |block|
  {
    if block == [] {
      assert block + ([""] + rest) == [""] + rest && ([""] + rest)[1..] == rest;
    } else {
      var lines := block + ([""] + rest);
      assert block[0] in block && lines[0] == block[0] && lines[1..] == block[1..] + ([""] + rest);
      ParagraphsAtBlock(Extended(paragraph, block[0]), block[1..], rest);
    }
  }

  lemma {:induction false} ParagraphTextsCons(first: seq<string>, rest: seq<seq<string>>)
    requires rest != []
    ensures ParagraphTexts([first] + rest) == [BlockText(first)] + ParagraphTexts(rest)
  {
    var blocks := [first] + rest;
    assert blocks[1..] == rest && blocks[|blocks| - 1] == rest[|rest| - 1];
    assert blocks[..|blocks| - 1] == [first] + rest[..|rest| - 1];
    assert ([first] + rest[..|rest| - 1])[1..] == rest[..|rest| - 1];
  }

  /** Paragraphs are exactly the blocks between the empty lines: every empty line ends one, the rest makes one more if
      it has text, and the lines of a block are joined with single spaces. */
  lemma {:induction false} ParagraphsAreBlocks(blocks: seq<seq<string>>)
    requires AreBlocks(blocks)
    ensures Paragraphs("", Unlines(blocks)) == ParagraphTexts(blocks)
    decreases |blocks|
  {
    var first := blocks[0];
    assert first in blocks;
    CollectedIsBlockText(first);
    if |blocks| == 1 {
      LastBlock(first);
      assert blocks == [first];
    } else {
      var rest := blocks[1..];
      assert blocks == [first] + rest;
      MoreBlocks(first, rest);
      ParagraphsAreBlocks(rest);
    }
  }

  lemma {:induction false} LastBlock(block: seq<string>)
    requires "" !in block
    ensures Paragraphs("", Unlines([block])) == ParagraphTexts([block])
  {
    CollectedIsBlockText(block);
    ParagraphsAtBlock("", block, []);
    assert BlockTexts([block]) == [BlockText(block)] + BlockTexts([]);
    assert [block][..0] == [];
  }

  lemma {:induction false} MoreBlocks(first: seq<string>, rest: seq<seq<string>>)
    requires rest != [] && AreBlocks([first] + rest)
    ensures AreBlocks(rest)
    ensures Paragraphs("", Unlines([first] + rest)) == [BlockText(first)] + Paragraphs("", Unlines(rest))
    ensures ParagraphTexts([first] + rest) == [BlockText(first)] + ParagraphTexts(rest)
  {
    var blocks := [first] + rest;
    assert first in blocks && blocks[1..] == rest;
    assert forall b | b in rest :: b in blocks;
    CollectedIsBlockText(first);
    ParagraphsAtBlock("", first, Unlines(rest));
    Assoc(first, [""], Unlines(rest));
    ParagraphTextsCons(first, rest);
  }

  lemma {:induction false} CountBlocks(blocks: seq<seq<string>>)
    requires AreBlocks(blocks)
    ensures |BlockTexts(blocks)| == |blocks| && multiset(Unlines(blocks))[""] == |blocks| - 1
    decreases |blocks|
  {
    var first := blocks[0];
    assert first in blocks && multiset(first)[""] == 0;
    if |blocks| > 1 {
      assert forall b | b in blocks[1..] :: b in blocks;
      CountBlocks(blocks[1..]);
      assert multiset([""])[""] == 1;
    } else {
      assert BlockTexts(blocks[1..]) == [];
    }
  }

  lemma {:induction false} CountTexts(blocks: seq<seq<string>>)
    ensures |BlockTexts(blocks)| == |blocks|
  {
    if blocks == [] {
    } else {
      CountTexts(blocks[1..]);
    }
  }

  /** Every list of lines consists of blocks. */
  lemma {:induction false} LinesAreBlocks(lines: seq<string>) returns (blocks: seq<seq<string>>)
    ensures AreBlocks(blocks) && Unlines(blocks) == lines
  {
    if lines == [] {
      blocks := [[]];
    } else {
      var rest := LinesAreBlocks(lines[1..]);
      var more := rest[1..];
      assert lines == [lines[0]] + lines[1..] && rest == [rest[0]] + more;
      if lines[0] == "" {
        blocks := [[]] + rest;
        assert blocks[1..] == rest;
      } else {
        blocks := [[lines[0]] + rest[0]] + more;
        assert blocks[1..] == more;
        assert rest[0] in rest && forall b | b in more :: b in rest;
        if more != [] {
          assert [lines[0]] + rest[0] + [""] + Unlines(more) == [lines[0]] + (rest[0] + [""] + Unlines(more));
        }
      }
    }
  }

  /** The paragraphs of any text: its lines are blocks between empty lines, and there are as many paragraphs as empty
      lines, and one more if the last block has text; an empty text makes one empty paragraph. */
  lemma {:induction false} ParagraphsOfText(text: string) returns (blocks: seq<seq<string>>)
    ensures AreBlocks(blocks) && Unlines(blocks) == SplitLines(text)
    ensures var borders := multiset(SplitLines(text))[""]; var more := BlockText(blocks[|blocks| - 1]) != "";
      && |blocks| == borders + 1
      && ParagraphsOf(text) == OrBlankLine(ParagraphTexts(blocks))
      && |ParagraphTexts(blocks)| == if more then borders + 1 else borders
  {
    blocks := LinesAreBlocks(SplitLines(text));
    ParagraphsAreBlocks(blocks);
    CountBlocks(blocks);
    CountTexts(blocks[..|blocks| - 1]);
  }

  // ---------- the lines of a text ----------

  predicate NoBreak(line: string) {
    forall i | 0 <= i < |line| :: !IsBreak(line[i])
  }

  lemma {:induction false} LineEnds(line: string, rest: string)
    requires NoBreak(line) && (rest == "" || IsBreak(rest[0]))
    ensures LineLength(line + rest) == |line|
  {
    if line == "" {
      assert line + rest == rest;
    } else {
      assert (line + rest)[1..] == line[1..] + rest;
      LineEnds(line[1..], rest);
    }
  }

  /** A line end is one character, or "\r\n". */
  predicate IsLineEnd(end: string, rest: string) {
    end == "\r\n" || (|end| == 1 && IsBreak(end[0]) && !(end == "\r" && rest != "" && rest[0] == '\n'))
  }

  lemma SplitLinesAt(line: string, end: string, rest: string)
    requires NoBreak(line) && IsLineEnd(end, rest)
    ensures SplitLines(line + end + rest) == [line] + SplitLines(rest)
  {
    var s, i := line + end + rest, |line|;
    Assoc(line, end, rest);
    LineEnds(line, end + rest);
    assert s[i] == end[0] && s[i + |end|..] == rest && s[..i] == line;
    assert |end| == 2 ==> s[i + 1] == end[1];
    assert |end| == 1 && rest != "" ==> s[i + 1] == rest[0];
  }

  lemma SplitLastLine(line: string)
    requires NoBreak(line)
    ensures SplitLines(line) == if line == "" then [] else [line]
  {
    LineEnds(line, "");
    assert line + "" == line;
  }

  /** Lines that each end with "\n". */
  function Written(lines: seq<string>): string {
    if lines == [] then "" else lines[0] + "\n" + Written(lines[1..])
  }

  /** `splitlines` reads back lines that have been written with line ends; the last one may lack it. */
  lemma {:induction false} SplitLinesReads(lines: seq<string>, last: string)
    requires NoBreak(last) && forall l | l in lines :: NoBreak(l)
    ensures SplitLines(Written(lines) + last) == lines + if last == "" then [] else [last]
  {
    if lines == [] {
      SplitLastLine(last);
      assert "" + last == last;
    } else {
      var first, rest := lines[0], lines[1..];
      assert first in lines;
      SplitLinesReads(rest, last);
      SplitLinesAt(first, "\n", Written(rest) + last);
      Assoc(first + "\n", Written(rest), last);
      Assoc([first], rest, if last == "" then [] else [last]);
      assert lines == [first] + rest;
    }
  }

  lemma {:induction false} OneLine(line: string)
    requires line != "" && !IsSpace(line[|line| - 1])
    ensures BlockText([line]) == line && BlockTexts([[line]]) == [line]
  {
    assert [line][1..] == [] && [line] + [] == [line];
    assert BlockTexts([[line]]) == [BlockText([line])] + BlockTexts([]);
  }

  lemma {:induction false} ThreeLines()
    ensures SplitLines("a\n\nb") == ["a"] + [""] + ["b"]
  {
    assert "" + "\n" + "b" == "\nb" && "a" + "\n" + "\nb" == "a\n\nb";
    SplitLastLine("b");
    SplitLinesAt("", "\n", "b");
    SplitLinesAt("a", "\n", "\nb");
    Assoc(["a"], [""], ["b"]);
  }

  /** For instance, two lines with an empty line between them. */
  lemma {:induction false} TwoParagraphs()
    ensures ParagraphsOf("a\n\nb") == ["a", "b"]
  {
    var first, rest := ["a"], [["b"]];
    ThreeLines();
    OneLine("a");
    OneLine("b");
    ParagraphTextsCons(first, rest);
    var blocks := [first] + rest;
    assert blocks[1..] == rest;
    ParagraphsAreBlocks(blocks);
  }

  // ---------- the loop ----------

  method ToParagraphs(text: string) returns (paragraphs: seq<string>)
    ensures paragraphs == ParagraphsOf(text)
    ensures forall blocks | AreBlocks(blocks) && Unlines(blocks) == SplitLines(text) ::
      paragraphs == OrBlankLine(ParagraphTexts(blocks))
  {
    paragraphs := [];
    var paragraph := "";
    var lines := SplitLines(text);
    for i := 0 to |lines|
      invariant Paragraphs("", lines) == paragraphs + Paragraphs(paragraph, lines[i..])
    {
      ghost var rest := lines[i..];
      assert rest[0] == lines[i] && rest[1..] == lines[i + 1..];
      if lines[i] != "" {
        ghost var extended := Extended(paragraph, lines[i]);
        if paragraph == "" {
          paragraph := paragraph + RStrip(lines[i]);
        } else {
          paragraph := paragraph + " " + Strip(lines[i]);
        }
        assert paragraph == extended;
      } else {
        Assoc(paragraphs, [paragraph], Paragraphs("", rest[1..]));
        paragraphs := paragraphs + [paragraph];
        paragraph := "";
      }
    }
    if paragraph != "" {
      paragraphs := paragraphs + [paragraph];
    }
    if paragraphs == [] {
      paragraphs := [""];
    }
    forall blocks | AreBlocks(blocks) && Unlines(blocks) == SplitLines(text)
      ensures paragraphs == OrBlankLine(ParagraphTexts(blocks))
    {
      ParagraphsAreBlocks(blocks);
    }
  }
}
