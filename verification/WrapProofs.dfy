/** What wrapping promises: no word is lost, lines fit, and no other wrapping uses fewer lines. */
module WrapProofs {
  import opened PyString
  import opened TextParagraphs
  import opened Justify
  import opened JustifyProofs
  import opened Wrap

  // ---------- words are conserved ----------

  lemma {:induction false} ParagraphsKeepWords(paragraph: string, lines: seq<string>)
    ensures WordsOfAll(Paragraphs(paragraph, lines)) == Words(paragraph) + WordsOfAll(lines)
    decreases |lines|
  {
    if lines == [] {
      WordsOfAllCons(paragraph, []);
      assert [paragraph] + [] == [paragraph];
    } else if lines[0] == "" {
      ParagraphsKeepWords("", lines[1..]);
      WordsOfAllCons(paragraph, Paragraphs("", lines[1..]));
    } else {
      var next := Extended(paragraph, lines[0]);
      ParagraphsKeepWords(next, lines[1..]);
      ExtendedKeepsWords(paragraph, lines[0]);
      Assoc(Words(paragraph), Words(lines[0]), WordsOfAll(lines[1..]));
    }
  }

  lemma ExtendedKeepsWords(paragraph: string, line: string)
    ensures Words(Extended(paragraph, line)) == Words(paragraph) + Words(line)
  {
    if paragraph == "" {
      WordsRStrip(line);
    } else {
      WordsStrip(line);
      var sep := " ";
      assert IsSpace(sep[0]);
      WordsAcrossBreak(paragraph, sep, Strip(line));
    }
  }

  lemma {:induction false} ParagraphsOfKeepsWords(text: string)
    ensures WordsOfAll(ParagraphsOf(text)) == Words(text)
  {
    ParagraphsKeepWords("", SplitLines(text));
    WordsSplitLines(text);
    BlankLineAddsNoWords(Paragraphs("", SplitLines(text)));
  }

  lemma BlankLineAddsNoWords(lines: seq<string>)
    ensures WordsOfAll(OrBlankLine(lines)) == WordsOfAll(lines)
  {
    if lines == [] {
      assert WordsOfAll([""]) == Words("") + WordsOfAll([]);
    }
  }

  /** A line under construction: the indent alone, or words each followed by a space. */
  ghost predicate OpenLine(lead: string, line: string) {
    Blank(lead) && (line == lead || (|line| > |lead| && IsSpace(line[|line| - 1])))
  }

  lemma WordPlaced(lead: string, line: string, word: string)
    requires OpenLine(lead, line)
    ensures OpenLine(lead, line + word + " ")
    ensures Words(line + word + " ") == Words(line) + Words(word)
    ensures Words(line + word) == Words(line) + Words(word)
    ensures line == lead ==> Words(line + word + " ") == Words(line + word) == Words(word)
  {
    if line != "" && line == lead { assert IsSpace(lead[|line| - 1]); }
    WordsAppend(line, word);
    WordsSurrounded("", line + word, " ");
    assert "" + (line + word) + " " == line + word + " ";
    if line == lead {
      WordsBlank(lead);
      assert [] + Words(word) == Words(word);
    }
  }

  lemma WordsOfOne(s: string)
    ensures WordsOfAll([s]) == Words(s)
  {
    WordsOfAllCons(s, []);
    assert [s] + [] == [s];
  }

  lemma {:induction false} LinesKeepWords(lead: string, line: string, words: seq<string>, width: int)
    requires OpenLine(lead, line) && |line| > |lead|
    ensures WordsOfAll(Lines(lead, line, words, width)) == Words(line) + WordsOfAll(words)
    decreases |words|
  {
    WordsRStrip(line);
    if words == [] {
      WordsOfOne(RStrip(line));
    } else {
      var w, rest := words[0], words[1..];
      if Overflows(line, w, width) {
        WordPlaced(lead, lead, w);
        LinesKeepWords(lead, lead + w + " ", rest, width);
        assert line != lead;
        WordsOfAllCons(RStrip(line), Lines(lead, lead + w + " ", rest, width));
      } else {
        WordPlaced(lead, line, w);
        LinesKeepWords(lead, line + w + " ", rest, width);
        Assoc(Words(line), Words(w), WordsOfAll(rest));
      }
    }
  }

  /** The words of a first piece too wide for an empty line. */
  function FirstTwice(lead: string, pieces: seq<string>, width: int): seq<string>
    requires pieces != []
  {
    if Overflows(lead, pieces[0], width) then Words(pieces[0]) else []
  }

  lemma FreshLinesKeepWords(lead: string, words: seq<string>, width: int)
    requires Blank(lead) && words != []
    ensures WordsOfAll(Lines(lead, lead, words, width)) == FirstTwice(lead, words, width) + WordsOfAll(words)
  {
    var w, rest := words[0], words[1..];
    var later := Lines(lead, lead + w + " ", rest, width);
    WordPlaced(lead, lead, w);
    LinesKeepWords(lead, lead + w + " ", rest, width);
    assert WordsOfAll(later) == WordsOfAll(words);
    if Overflows(lead, w, width) {
      WordsRStrip(lead + w);
      WordsOfAllCons(RStrip(lead + w), later);
    } else {
      assert [] + WordsOfAll(words) == WordsOfAll(words);
    }
  }

  /** The words that wrapping a paragraph prints a second time: its first piece, exactly when the
      indent and that piece are wider than `width`. */
  function FirstPieceTwice(paragraph: string, width: int): seq<string> {
    FirstTwice(Lead(paragraph), Pieces(paragraph), width)
  }

  lemma {:induction false} WordsOfPieces(text: string)
    ensures WordsOfAll(Pieces(text)) == Words(text)
  {
    JoinSplit(Strip(text));
    WordsJoin(Pieces(text));
    WordsStrip(text);
  }

  lemma {:induction false} RawLinesKeepWords(text: string, width: int)
    ensures WordsOfAll(RawLines(text, width)) == FirstPieceTwice(text, width) + Words(text)
  {
    FreshLinesKeepWords(Lead(text), Pieces(text), width);
    WordsOfPieces(text);
  }

  lemma {:induction false} FinishingKeepsWords(lines: seq<string>, width: int, justify: bool)
    requires !Divides(lines, width, justify)
    ensures WordsOfAll(FinishedLines(lines, width, justify)) == WordsOfAll(lines)
  {
    if lines == [] {
    } else {
      FinishingKeepsWords(lines[1..], width, justify);
      if justify { JustifyKeepsWords(lines[0], width, THRESHOLD); }
      WordsOfAllCons(Finished(lines[0], width, justify), FinishedLines(lines[1..], width, justify));
    }
  }

  function AllFirstPiecesTwice(paragraphs: seq<string>, width: int): seq<string> {
    if paragraphs == [] then []
    else FirstPieceTwice(paragraphs[0], width) + Words(paragraphs[0]) + AllFirstPiecesTwice(paragraphs[1..], width)
  }

  lemma {:induction false} ParagraphKeepsWords(text: string, width: int, justify: bool)
    ensures WrappedParagraph(text, width, justify).Ok? ==>
      WordsOfAll(WrappedParagraph(text, width, justify).value) == FirstPieceTwice(text, width) + Words(text)
  {
    var lines := RawLines(text, width);
    if !Divides(lines, width, justify) {
      RawLinesKeepWords(text, width);
      FinishingKeepsWords(lines, width, justify);
      BlankLineAddsNoWords(FinishedLines(lines, width, justify));
    }
  }

  lemma {:induction false} AllKeepWords(paragraphs: seq<string>, width: int, justify: bool)
    ensures WrappedAll(paragraphs, width, justify).Ok? ==>
      WordsOfAll(WrappedAll(paragraphs, width, justify).value) == AllFirstPiecesTwice(paragraphs, width)
  {
    if paragraphs != [] && WrappedAll(paragraphs, width, justify).Ok? {
      AllKeepWords(paragraphs[1..], width, justify);
      ParagraphKeepsWords(paragraphs[0], width, justify);
      WordsOfAllAppend(WrappedParagraph(paragraphs[0], width, justify).value,
                       WrappedAll(paragraphs[1..], width, justify).value);
    }
  }

  predicate FirstPieceFits(paragraph: string, width: int) {
    Strip(paragraph) == "" || Indent(paragraph) + |Pieces(paragraph)[0]| <= width
  }

  lemma FirstPieceHasWords(s: string)
    requires s != "" && !IsSpace(s[0])
    ensures Words(Split(s)[0]) != []
  {
  }

  lemma FirstPieceTwiceOnlyIfTooWide(paragraph: string, width: int)
    ensures FirstPieceTwice(paragraph, width) == [] <==> FirstPieceFits(paragraph, width)
  {
    if Strip(paragraph) != "" { FirstPieceHasWords(Strip(paragraph)); }
  }

  lemma {:induction false} NothingTwice(paragraphs: seq<string>, width: int)
    ensures |AllFirstPiecesTwice(paragraphs, width)| >= |WordsOfAll(paragraphs)|
    ensures (forall p | p in paragraphs :: FirstPieceFits(p, width))
      <==> AllFirstPiecesTwice(paragraphs, width) == WordsOfAll(paragraphs)
  {
    if paragraphs == [] {
    } else {
      var p, rest := paragraphs[0], paragraphs[1..];
      NothingTwice(rest, width);
      FirstPieceTwiceOnlyIfTooWide(p, width);
      var twice, once := FirstPieceTwice(p, width), Words(p);
      var more, others := AllFirstPiecesTwice(rest, width), WordsOfAll(rest);
      OnlyEqualIfNothingAdded(twice, once, more, others);
      assert forall q | q in paragraphs :: q == p || q in rest;
    }
  }

  lemma OnlyEqualIfNothingAdded<T>(twice: seq<T>, once: seq<T>, more: seq<T>, others: seq<T>)
    requires |more| >= |others|
    ensures twice + once + more == once + others <==> twice == [] && more == others
  {
    if twice == [] {
      assert twice + once + more == once + more;
      SameFront(once, more, others);
    } else {
      assert |twice + once + more| > |once + others|;
    }
  }

  lemma SameFront<T>(front: seq<T>, a: seq<T>, b: seq<T>)
    ensures front + a == front + b <==> a == b
  {
    assert (front + a)[|front|..] == a && (front + b)[|front|..] == b;
  }

  /** Wrapping conserves the words: the output holds the words of the text in order, plus a second copy of the
      first piece of every paragraph whose indent and first piece are wider than `width`. So the words are
      exactly those of the text if and only if all these first pieces fit. */
  lemma {:induction false} WrapKeepsWords(text: string, width: int, justify: bool)
    ensures var r := WrappedAll(ParagraphsOf(text), width, justify);
      r.Ok? ==>
        && WordsOfAll(r.value) == AllFirstPiecesTwice(ParagraphsOf(text), width)
        && (WordsOfAll(r.value) == Words(text) <==> forall p | p in ParagraphsOf(text) :: FirstPieceFits(p, width))
  {
    AllKeepWords(ParagraphsOf(text), width, justify);
    ParagraphsOfKeepsWords(text);
    NothingTwice(ParagraphsOf(text), width);
  }

  // ---------- borders are kept ----------

  /** These lines hold the words of the paragraph, and its first piece twice if that is too wide. */
  ghost predicate IsStretch(lines: seq<string>, paragraph: string, width: int) {
    lines != [] && WordsOfAll(lines) == FirstPieceTwice(paragraph, width) + Words(paragraph)
  }

  lemma {:induction false} ParagraphIsStretch(text: string, width: int, justify: bool)
    requires WrappedParagraph(text, width, justify).Ok?
    ensures IsStretch(WrappedParagraph(text, width, justify).value, text, width)
  {
    ParagraphKeepsWords(text, width, justify);
  }

  lemma {:induction false} WrappedFirst(paragraphs: seq<string>, width: int, justify: bool)
    requires paragraphs != [] && WrappedAll(paragraphs, width, justify).Ok?
    ensures WrappedParagraph(paragraphs[0], width, justify).Ok? && WrappedAll(paragraphs[1..], width, justify).Ok?
    ensures WrappedAll(paragraphs, width, justify).value
         == WrappedParagraph(paragraphs[0], width, justify).value + WrappedAll(paragraphs[1..], width, justify).value
  {
  }

  /** Wrapping never joins paragraphs: the output consists of a stretch of lines, at least one, for every paragraph. */
  lemma {:induction false} WrapKeepsBorders(paragraphs: seq<string>, width: int, justify: bool)
    returns (stretches: seq<seq<string>>)
    requires WrappedAll(paragraphs, width, justify).Ok?
    ensures |stretches| == |paragraphs| && Flatten(stretches) == WrappedAll(paragraphs, width, justify).value
    ensures forall i | 0 <= i < |paragraphs| :: IsStretch(stretches[i], paragraphs[i], width)
  {
    if paragraphs == [] {
      stretches := [];
    } else {
      WrappedFirst(paragraphs, width, justify);
      ParagraphIsStretch(paragraphs[0], width, justify);
      var first := WrappedParagraph(paragraphs[0], width, justify).value;
      var rest := WrapKeepsBorders(paragraphs[1..], width, justify);
      RenderedCons("", first, rest);
      stretches := [first] + rest;
    }
  }

  /** The paragraphs of a text are the blocks between its empty lines, and each is a stretch of lines of its own. */
  lemma {:induction false} WrapKeepsBlocks(text: string, width: int, justify: bool)
    returns (blocks: seq<seq<string>>, stretches: seq<seq<string>>)
    requires WrappedAll(ParagraphsOf(text), width, justify).Ok?
    ensures AreBlocks(blocks) && Unlines(blocks) == SplitLines(text)
    ensures Flatten(stretches) == WrappedAll(ParagraphsOf(text), width, justify).value
    ensures var texts := OrBlankLine(ParagraphTexts(blocks));
      |stretches| == |texts| && forall i | 0 <= i < |texts| :: IsStretch(stretches[i], texts[i], width)
  {
    blocks := ParagraphsOfText(text);
    stretches := WrapKeepsBorders(ParagraphsOf(text), width, justify);
  }

  // ---------- greedy lines are fewest ----------

  /** An order-preserving split of words into lines, each given by its words. */
  function Flatten(groups: seq<seq<string>>): seq<string> {
    if groups == [] then [] else groups[0] + Flatten(groups[1..])
  }

  /** The width of a line of these words behind an indent. */
  function LineWidth(indent: nat, group: seq<string>): nat {
    indent + |Join(group)|
  }

  ghost predicate AllFit(indent: nat, groups: seq<seq<string>>, width: int) {
    forall g | g in groups :: LineWidth(indent, g) <= width
  }

  /** The line under construction, as the words it holds. */
  function LineOf(lead: string, group: seq<string>): string {
    if group == [] then lead else lead + Join(group) + " "
  }

  lemma {:induction false} JoinSnoc(group: seq<string>, w: string)
    ensures Join(group + [w]) == if group == [] then w else Join(group) + " " + w
  {
    if |group| > 1 {
      JoinSnoc(group[1..], w);
      assert (group + [w])[1..] == group[1..] + [w];
    } else if |group| == 1 {
      assert (group + [w])[1..] == [w];
    } else {
      assert group + [w] == [w];
    }
  }

  lemma LineOfSnoc(lead: string, group: seq<string>, w: string)
    ensures LineOf(lead, group + [w]) == LineOf(lead, group) + w + " "
    ensures LineWidth(|lead|, group + [w]) == |LineOf(lead, group)| + |w|
  {
    JoinSnoc(group, w);
    if group == [] {
      assert lead + w + " " == LineOf(lead, [w]) && group + [w] == [w];
    } else {
      var s := Join(group);
      assert lead + (s + " " + w) + " " == lead + s + " " + w + " ";
    }
  }

  /** A longer stretch of words makes a wider line. */
  lemma {:induction false} WiderJoin(group: seq<string>, more: seq<string>)
    ensures |Join(group)| <= |Join(group + more)|
    decreases |more|
  {
    if more == [] {
      assert group + more == group;
    } else {
      JoinSnoc(group, more[0]);
      WiderJoin(group + [more[0]], more[1..]);
      assert group + [more[0]] + more[1..] == group + more;
    }
  }

  lemma {:induction false} WiderJoinLeft(more: seq<string>, group: seq<string>)
    ensures |Join(group)| <= |Join(more + group)|
  {
    if more == [] {
      assert more + group == group;
    } else {
      WiderJoinLeft(more[1..], group);
      assert (more + group)[1..] == more[1..] + group;
    }
  }

  /** Greedy stays ahead: if a fitting split starts its current line no later than the greedy line does,
      it needs at least as many further lines. */
  lemma {:induction false} GreedyStaysAhead(lead: string, skipped: seq<string>, group: seq<string>,
                                            words: seq<string>, width: int, split: seq<seq<string>>)
    requires group != []
    requires AllFit(|lead|, split, width)
    requires Flatten(split) == skipped + group + words
    ensures |Lines(lead, LineOf(lead, group), words, width)| <= |split|
    decreases |words|, |split|
  {
    if words == [] {
    } else {
      var w, rest := words[0], words[1..];
      LineOfSnoc(lead, group, w);
      if Overflows(LineOf(lead, group), w, width) {
        assert words == [w] + rest;
        SplitBreaksBefore(|lead|, skipped, group, w, rest, width, split);
        var first := split[0];
        var left := (skipped + group)[|first|..];
        assert Flatten(split[1..]) == left + [w] + rest;
        LineOfSnoc(lead, [], w);
        assert [] + [w] == [w];
        GreedyStaysAhead(lead, left, [w], rest, width, split[1..]);
      } else {
        assert skipped + group + words == skipped + (group + [w]) + rest;
        GreedyStaysAhead(lead, skipped, group + [w], rest, width, split);
      }
    }
  }

  /** A fitting split cannot have its first line reach past words that already overflow. */
  lemma SplitBreaksBefore(indent: nat, skipped: seq<string>, group: seq<string>, w: string, rest: seq<string>,
                          width: int, split: seq<seq<string>>)
    requires AllFit(indent, split, width)
    requires Flatten(split) == skipped + group + ([w] + rest)
    requires LineWidth(indent, group + [w]) > width
    ensures split != [] && |split[0]| <= |skipped + group|
    ensures Flatten(split[1..]) == (skipped + group)[|split[0]|..] + [w] + rest
  {
    var before := skipped + group;
    var first, later := split[0], Flatten(split[1..]);
    assert first in split;
    assert first + later == before + ([w] + rest);
    if |first| > |before| {
      FirstHasAll(first, later, before, w, rest);
      var more := first[|before| + 1..];
      Assoc(skipped, group, [w]);
      StretchIsWide(skipped, group + [w], more);
    }
    assert later == (first + later)[|first|..];
    assert (before + ([w] + rest))[|first|..] == before[|first|..] + [w] + rest;
  }

  lemma FirstHasAll<T>(first: seq<T>, later: seq<T>, before: seq<T>, w: T, rest: seq<T>)
    requires first + later == before + ([w] + rest) && |first| > |before|
    ensures first == before + [w] + first[|before| + 1..]
  {
    assert first == (first + later)[..|first|];
    assert first[..|before|] == before && first[|before|] == w;
  }

  lemma StretchIsWide(skipped: seq<string>, group: seq<string>, more: seq<string>)
    ensures |Join(skipped + group + more)| >= |Join(group)|
  {
    WiderJoinLeft(skipped, group);
    WiderJoin(skipped + group, more);
  }

  // ---------- the lines are such a split, and they fit ----------

  /** The printed lines of a split. */
  function Rendered(lead: string, groups: seq<seq<string>>): seq<string> {
    if groups == [] then [] else [RStrip(lead + Join(groups[0]))] + Rendered(lead, groups[1..])
  }

  ghost predicate EachFits(indent: nat, words: seq<string>, width: int) {
    forall w | w in words :: indent + |w| <= width
  }

  lemma RStripSpace(s: string)
    ensures RStrip(s + " ") == RStrip(s)
  {
    assert (s + " ")[..|s|] == s;
  }

  lemma NotBlankAfter(s: string, w: string)
    requires !Blank(w)
    ensures RStrip(s + w) != ""
  {
    var i :| 0 <= i < |w| && !IsSpace(w[i]);
    assert (s + w)[|s| + i] == w[i];
    assert !Blank(s + w) && (s + w)[0..] == s + w;
  }

  lemma JoinEndsWithLast(group: seq<string>) returns (before: string)
    requires group != []
    ensures Join(group) == before + group[|group| - 1]
  {
    JoinEnd(group);
    before := Join(group)[..|Join(group)| - |group[|group| - 1]|];
  }

  lemma LastLine(lead: string, group: seq<string>, width: int)
    requires group != [] && !Blank(group[|group| - 1])
    ensures Lines(lead, LineOf(lead, group), [], width) == [RStrip(lead + Join(group))]
  {
    var before := JoinEndsWithLast(group);
    RStripSpace(lead + Join(group));
    NotBlankAfter(lead + before, group[|group| - 1]);
    Assoc(lead, before, group[|group| - 1]);
  }

  lemma RenderedCons(lead: string, group: seq<string>, groups: seq<seq<string>>)
    ensures Rendered(lead, [group] + groups) == [RStrip(lead + Join(group))] + Rendered(lead, groups)
    ensures Flatten([group] + groups) == group + Flatten(groups)
  {
    assert ([group] + groups)[1..] == groups;
  }

  /** The words of each line, when `group` is on the line under construction. */
  function Grouped(lead: string, group: seq<string>, words: seq<string>, width: int): seq<seq<string>>
    decreases |words|
  {
    if words == [] then [group]
    else if Overflows(LineOf(lead, group), words[0], width) then
      [group] + Grouped(lead, [words[0]], words[1..], width)
    else Grouped(lead, group + [words[0]], words[1..], width)
  }

  lemma {:induction false} GroupedFlattens(lead: string, group: seq<string>, words: seq<string>, width: int)
    ensures Flatten(Grouped(lead, group, words, width)) == group + words
    decreases |words|
  {
    if words == [] {
      RenderedCons(lead, group, []);
      assert [group] + [] == [group];
    } else {
      var w, rest := words[0], words[1..];
      assert words == [w] + rest;
      Assoc(group, [w], rest);
      if Overflows(LineOf(lead, group), w, width) {
        GroupedFlattens(lead, [w], rest, width);
        RenderedCons(lead, group, Grouped(lead, [w], rest, width));
      } else {
        GroupedFlattens(lead, group + [w], rest, width);
      }
    }
  }

  lemma {:induction false} GroupedFits(lead: string, group: seq<string>, words: seq<string>, width: int)
    requires LineWidth(|lead|, group) <= width && EachFits(|lead|, words, width)
    ensures AllFit(|lead|, Grouped(lead, group, words, width), width)
    ensures group != [] ==> forall g | g in Grouped(lead, group, words, width) :: g != []
    decreases |words|
  {
    if words == [] {
    } else {
      var w, rest := words[0], words[1..];
      LineOfSnoc(lead, group, w);
      if Overflows(LineOf(lead, group), w, width) {
        GroupedFits(lead, [w], rest, width);
      } else {
        GroupedFits(lead, group + [w], rest, width);
      }
    }
  }

  /** Every line takes as many words as fit: a line of several words fits, and the next word does not fit behind it. */
  ghost predicate Greedy(indent: nat, groups: seq<seq<string>>, width: int) {
    groups != [] ==>
      && groups[0] != [] && (|groups[0]| > 1 ==> LineWidth(indent, groups[0]) <= width)
      && (|groups| > 1 ==> groups[1] != [] && LineWidth(indent, groups[0] + [groups[1][0]]) > width)
      && Greedy(indent, groups[1..], width)
  }

  lemma GreedyCons(indent: nat, group: seq<string>, groups: seq<seq<string>>, width: int)
    requires group != [] && (|group| > 1 ==> LineWidth(indent, group) <= width) && Greedy(indent, groups, width)
    requires groups != [] && LineWidth(indent, group + [groups[0][0]]) > width
    ensures Greedy(indent, [group] + groups, width)
  {
    assert ([group] + groups)[1..] == groups;
  }

  lemma {:induction false} GroupedIsGreedy(lead: string, group: seq<string>, words: seq<string>, width: int)
    requires group != [] && (|group| > 1 ==> LineWidth(|lead|, group) <= width)
    ensures var groups := Grouped(lead, group, words, width);
      groups != [] && groups[0] != [] && groups[0][0] == group[0] && Greedy(|lead|, groups, width)
    decreases |words|
  {
    if words == [] {
    } else {
      var w, rest := words[0], words[1..];
      LineOfSnoc(lead, group, w);
      if Overflows(LineOf(lead, group), w, width) {
        GroupedIsGreedy(lead, [w], rest, width);
        GreedyCons(|lead|, group, Grouped(lead, [w], rest, width), width);
      } else {
        GroupedIsGreedy(lead, group + [w], rest, width);
      }
    }
  }

  lemma {:induction false} LinesAreGrouped(lead: string, group: seq<string>, words: seq<string>, width: int,
                                           last: string)
    requires group != [] && !Blank(last)
    requires last == if words == [] then group[|group| - 1] else words[|words| - 1]
    ensures Lines(lead, LineOf(lead, group), words, width) == Rendered(lead, Grouped(lead, group, words, width))
    decreases |words|
  {
    if words == [] {
      LastLine(lead, group, width);
      RenderedCons(lead, group, []);
      assert [group] + [] == [group];
    } else {
      var w, rest := words[0], words[1..];
      LineOfSnoc(lead, group, w);
      if Overflows(LineOf(lead, group), w, width) {
        LineOfSnoc(lead, [], w);
        assert [] + [w] == [w];
        RStripSpace(lead + Join(group));
        LinesAreGrouped(lead, [w], rest, width, last);
        RenderedCons(lead, group, Grouped(lead, [w], rest, width));
      } else {
        LinesAreGrouped(lead, group + [w], rest, width, last);
      }
    }
  }

  /** When every piece fits behind the indent, the lines of a paragraph are a fitting split of its pieces. */
  lemma {:induction false} RawLinesAreASplit(text: string, width: int) returns (groups: seq<seq<string>>)
    requires EachFits(Indent(text), Pieces(text), width) && Strip(text) != ""
    ensures Flatten(groups) == Pieces(text) && AllFit(Indent(text), groups, width)
    ensures forall g | g in groups :: g != []
    ensures RawLines(text, width) == Rendered(Lead(text), groups)
  {
    JoinSplit(Strip(text));
    groups := FreshLinesAreASplit(Lead(text), Pieces(text), Strip(text), width);
  }

  lemma {:induction false} FreshLinesAreASplit(lead: string, words: seq<string>, s: string, width: int)
    returns (groups: seq<seq<string>>)
    requires words != [] && EachFits(|lead|, words, width)
    requires Join(words) == s && s != "" && !IsSpace(EndOf(s))
    ensures Flatten(groups) == words && AllFit(|lead|, groups, width)
    ensures forall g | g in groups :: g != []
    ensures Lines(lead, lead, words, width) == Rendered(lead, groups)
  {
    var w, rest := words[0], words[1..];
    JoinEnd(words);
    var last := words[|words| - 1];
    assert !Blank(last) by { assert EndOf(last) == EndOf(s); }
    assert words == [w] + rest && [] + [w] == [w];
    LineOfSnoc(lead, [], w);
    groups := Grouped(lead, [w], rest, width);
    GroupedFlattens(lead, [w], rest, width);
    GroupedFits(lead, [w], rest, width);
    LinesAreGrouped(lead, [w], rest, width, last);
  }

  lemma {:induction false} FinishedPlainly(lines: seq<string>, width: int)
    ensures FinishedLines(lines, width, false) == lines
  {
    if lines == [] {
    } else {
      FinishedPlainly(lines[1..], width);
    }
  }

  lemma {:induction false} FreshLinesAreGreedy(lead: string, words: seq<string>, width: int)
    returns (groups: seq<seq<string>>)
    requires words != [] && !Blank(words[|words| - 1])
    ensures Flatten(groups) == words && Greedy(|lead|, groups, width) && groups != []
    ensures Lines(lead, lead, words, width)
      == (if |lead| + |words[0]| > width then [RStrip(lead + words[0])] else []) + Rendered(lead, groups)
  {
    var w, rest := words[0], words[1..];
    assert words == [w] + rest && [] + [w] == [w];
    LineOfSnoc(lead, [], w);
    groups := Grouped(lead, [w], rest, width);
    GroupedFlattens(lead, [w], rest, width);
    GroupedIsGreedy(lead, [w], rest, width);
    LinesAreGrouped(lead, [w], rest, width, words[|words| - 1]);
  }

  lemma PiecesEnd(text: string)
    requires Strip(text) != ""
    ensures !Blank(Pieces(text)[|Pieces(text)| - 1])
  {
    var words := Pieces(text);
    JoinSplit(Strip(text));
    JoinEnd(words);
    assert EndOf(words[|words| - 1]) == EndOf(Strip(text));
  }

  /** What a paragraph with text becomes without justification, whatever the width: its pieces in greedy lines, each
      behind the indent of the paragraph and stripped on the right. A first piece that is too wide comes twice. */
  lemma {:induction false} PlainLines(text: string, width: int) returns (groups: seq<seq<string>>)
    requires Strip(text) != ""
    ensures Flatten(groups) == Pieces(text) && Greedy(Indent(text), groups, width)
    ensures var lead, first := Spaces(Indent(text)), Pieces(text)[0];
      var twice := if Indent(text) + |first| > width then [RStrip(lead + first)] else [];
      WrappedParagraph(text, width, false) == Ok(twice + Rendered(lead, groups))
  {
    PiecesEnd(text);
    groups := FreshLinesAreGreedy(Lead(text), Pieces(text), width);
    FinishedPlainly(RawLines(text, width), width);
  }

  lemma {:induction false} BlankFreshLines(lead: string, width: int)
    requires Blank(lead)
    ensures Lines(lead, lead, [""], width) == [] || Lines(lead, lead, [""], width) == [""]
  {
    var line := lead + "" + " ";
    assert lead + "" == lead && Blank(line);
    BlankRStrip(lead);
    BlankRStrip(line);
    assert Lines(lead, line, [], width) == [];
  }

  lemma {:induction false} NothingLeft(raw: seq<string>, width: int)
    requires raw == [] || raw == [""]
    ensures FinishAll(raw, width, false) == Ok([""])
  {
    FinishedPlainly(raw, width);
  }

  lemma SplitNothing(text: string)
    requires Strip(text) == ""
    ensures Pieces(text) == [""]
  {
  }

  /** A paragraph without text becomes one empty line. */
  lemma {:induction false} BlankParagraphIsOneLine(text: string, width: int)
    requires Strip(text) == ""
    ensures WrappedParagraph(text, width, false) == Ok([""])
  {
    SplitNothing(text);
    BlankFreshLines(Lead(text), width);
    NothingLeft(RawLines(text, width), width);
  }

  lemma {:induction false} RenderedFits(lead: string, groups: seq<seq<string>>, width: int)
    requires AllFit(|lead|, groups, width)
    ensures forall l | l in Rendered(lead, groups) :: |l| <= width
    ensures |Rendered(lead, groups)| == |groups|
  {
    if groups == [] {
    } else {
      assert groups[0] in groups;
      RenderedFits(lead, groups[1..], width);
    }
  }

  lemma FitsIfFlattened(indent: nat, words: seq<string>, width: int, split: seq<seq<string>>)
    requires AllFit(indent, split, width) && Flatten(split) == words
    ensures EachFits(indent, words, width)
    decreases |split|
  {
    if split != [] {
      assert split[0] in split;
      FitsIfFlattened(indent, Flatten(split[1..]), width, split[1..]);
      forall w | w in split[0] ensures indent + |w| <= width {
        WordInJoin(split[0], w);
      }
    }
  }

  lemma {:induction false} WordInJoin(group: seq<string>, w: string)
    requires w in group
    ensures |w| <= |Join(group)|
  {
    if |group| > 1 && w != group[0] { WordInJoin(group[1..], w); }
  }

  /** Greedy wrapping is optimal: no order-preserving split of the pieces into lines that fit uses fewer lines. */
  lemma {:induction false} FreshLinesAreFewest(lead: string, words: seq<string>, width: int, split: seq<seq<string>>)
    requires words != []
    requires AllFit(|lead|, split, width) && Flatten(split) == words
    ensures |Lines(lead, lead, words, width)| <= |split|
  {
    FitsIfFlattened(|lead|, words, width, split);
    assert words[0] in words;
    LineOfSnoc(lead, [], words[0]);
    assert [] + [words[0]] == [words[0]];
    assert words == [] + [words[0]] + words[1..];
    GreedyStaysAhead(lead, [], [words[0]], words[1..], width, split);
  }

  lemma {:induction false} FinishedShape(lines: seq<string>, width: int, justify: bool)
    requires !Divides(lines, width, justify)
    requires forall l | l in lines :: |l| <= width
    ensures |FinishedLines(lines, width, justify)| == |lines|
    ensures forall l | l in FinishedLines(lines, width, justify) :: |l| <= width
  {
    if lines == [] {
    } else {
      assert lines[0] in lines;
      if justify && Rewrites(lines[0], width, THRESHOLD) {
        JustifyIsExact(lines[0], width, THRESHOLD);
      }
      FinishedShape(lines[1..], width, justify);
    }
  }

  lemma BlankLines(lead: string, width: int)
    requires Blank(lead) && |lead| <= width
    ensures Lines(lead, lead, [""], width) == []
  {
    assert Lines(lead, lead + "" + " ", [], width) == [];
  }

  lemma FreshLinesFit(lead: string, words: seq<string>, s: string, width: int)
    requires words != [] && EachFits(|lead|, words, width) && Blank(lead)
    requires Join(words) == s && if s == "" then words == [""] else !IsSpace(EndOf(s))
    ensures forall l | l in Lines(lead, lead, words, width) :: |l| <= width
    ensures Lines(lead, lead, words, width) != [] ==> width > 0
  {
    assert words[0] in words;
    if s == "" {
      BlankLines(lead, width);
    } else {
      var groups := FreshLinesAreASplit(lead, words, s, width);
      RenderedFits(lead, groups, width);
      JoinEnd(words);
      assert words[|words| - 1] in words;
    }
  }

  lemma {:induction false} RawLinesFit(text: string, width: int)
    requires EachFits(Indent(text), Pieces(text), width)
    ensures forall l | l in RawLines(text, width) :: |l| <= width
    ensures RawLines(text, width) != [] ==> width > 0
  {
    JoinSplit(Strip(text));
    FreshLinesFit(Lead(text), Pieces(text), Strip(text), width);
  }

  /** A paragraph that can be split into fitting lines at all is wrapped into fitting lines, as few as
      possible, justified or not. */
  lemma {:induction false} WrapIsOptimal(text: string, width: int, justify: bool, split: seq<seq<string>>)
    requires AllFit(Indent(text), split, width) && Flatten(split) == Pieces(text)
    ensures WrappedParagraph(text, width, justify).Ok?
    ensures var lines := WrappedParagraph(text, width, justify).value;
      |lines| <= |split| && forall l | l in lines :: |l| <= width
  {
    FreshLinesAreFewest(Lead(text), Pieces(text), width, split);
    FitsIfFlattened(Indent(text), Pieces(text), width, split);
    RawLinesFit(text, width);
    assert split != [];
    FinishedShape(RawLines(text, width), width, justify);
  }

  // ---------- exactly when the lines fit ----------

  ghost predicate Clean(word: string) {
    word != "" && forall c | c in word :: !IsSpace(c)
  }

  lemma CleanLine(lead: string, w: string)
    requires Clean(w)
    ensures RStrip(lead + w) == lead + w == RStrip(lead + w + " ")
  {
    RStripSpace(lead + w);
    assert (lead + w)[|lead + w| - 1] == w[|w| - 1];
  }

  lemma {:induction false} WideWordMakesWideLine(lead: string, line: string, words: seq<string>, width: int, w: string)
    requires |line| >= |lead| && w in words && |lead| + |w| > width
    requires forall v | v in words :: Clean(v)
    ensures exists l :: l in Lines(lead, line, words, width) && |l| > width
    decreases |words|
  {
    var v, rest := words[0], words[1..];
    var next := if Overflows(line, v, width) then lead + v + " " else line + v + " ";
    var later := Lines(lead, next, rest, width);
    if w in rest {
      WideWordMakesWideLine(lead, next, rest, width, w);
      var l :| l in later && |l| > width;
      assert l in Lines(lead, line, words, width);
    } else {
      assert v == w;
      CleanLine(lead, w);
      assert later[0] == lead + w;
      assert lead + w in Lines(lead, line, words, width);
    }
  }

  /** For words separated by single spaces, every line fits if and only if every word fits behind the indent. */
  lemma {:induction false} LinesFitExactlyIfWordsFit(text: string, width: int)
    requires forall w | w in Pieces(text) :: Clean(w)
    ensures (forall l | l in RawLines(text, width) :: |l| <= width) <==> EachFits(Indent(text), Pieces(text), width)
  {
    if EachFits(Indent(text), Pieces(text), width) {
      assert Pieces(text)[0] in Pieces(text);
      var groups := RawLinesAreASplit(text, width);
      RenderedFits(Lead(text), groups, width);
    } else {
      var w :| w in Pieces(text) && Indent(text) + |w| > width;
      WideWordMakesWideLine(Lead(text), Lead(text), Pieces(text), width, w);
    }
  }
}
