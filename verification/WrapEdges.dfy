/** Where wrapping meets its edges: when it divides by zero, and how long justified lines are. */
module WrapEdges {
  import opened PyString
  import opened TextParagraphs
  import opened Justify
  import opened JustifyProofs
  import opened Wrap
  import opened WrapProofs

  // ---------- division by zero ----------

  /** One of the words but the last is blank. */
  predicate BlankBeforeLast(words: seq<string>) {
    exists i :: 0 <= i < |words| - 1 && Blank(words[i])
  }

  lemma BlankWord(lead: string, word: string)
    requires Blank(lead)
    ensures Blank(lead + word) <==> Blank(word)
    ensures Blank(lead + word + " ") <==> Blank(word)
  {
    var s := lead + word + " ";
    assert forall i | 0 <= i < |word| :: s[|lead| + i] == word[i] == (lead + word)[|lead| + i];
  }

  /** At width zero every word starts a new line, so a line is empty where a blank word has been put alone. */
  lemma {:induction false} EmptyLines(lead: string, line: string, words: seq<string>)
    requires Blank(lead) && |line| > |lead|
    ensures "" in Lines(lead, line, words, 0) <==> words != [] && (Blank(line) || BlankBeforeLast(words))
    decreases |words|
  {
    BlankRStrip(line);
    if words != [] {
      var w, rest := words[0], words[1..];
      BlankWord(lead, w);
      EmptyLines(lead, lead + w + " ", rest);
      BlankFirst(words);
    }
  }

  lemma BlankFirst(words: seq<string>)
    requires words != []
    ensures BlankBeforeLast(words) <==> |words| > 1 && (Blank(words[0]) || BlankBeforeLast(words[1..]))
  {
    var rest := words[1..];
    if BlankBeforeLast(rest) {
      var i :| 0 <= i < |rest| - 1 && Blank(rest[i]);
      assert Blank(words[i + 1]);
    }
    if BlankBeforeLast(words) {
      var i :| 0 <= i < |words| - 1 && Blank(words[i]);
      assert i > 0 ==> Blank(rest[i - 1]);
    }
  }

  lemma EmptyFreshLines(lead: string, words: seq<string>)
    requires Blank(lead) && words != [] && |lead| + |words[0]| > 0
    ensures "" in Lines(lead, lead, words, 0) <==> Blank(words[0]) || BlankBeforeLast(words)
  {
    var w, rest := words[0], words[1..];
    BlankRStrip(lead + w);
    BlankWord(lead, w);
    EmptyLines(lead, lead + w + " ", rest);
    BlankFirst(words);
  }

  /** The ends of a stripped text that is split at spaces are not blank. */
  lemma EndsNotBlank(s: string)
    requires s != "" && !IsSpace(s[0]) && !IsSpace(s[|s| - 1])
    ensures var ws := Split(s); !Blank(ws[0]) && !Blank(ws[|ws| - 1])
  {
    var ws := Split(s);
    JoinSplit(s);
    JoinEnd(ws);
    assert EndOf(s) == s[|s| - 1];
    var last := ws[|ws| - 1];
    assert last != "" && EndOf(last) == EndOf(s);
    FirstPiece(s);
  }

  lemma FirstPiece(s: string)
    requires s != "" && s[0] != ' '
    ensures var w := Split(s)[0]; w != "" && w[0] == s[0]
  {
  }

  /** `wrap_paragraph` divides by zero exactly when it justifies at width zero a text that is nothing but whitespace
      after at least one space, or one with a blank piece: two spaces in a row, or other whitespace between spaces. */
  lemma {:induction false} DividesExactlyOnBlankPieces(text: string, width: int, justify: bool)
    ensures WrappedParagraph(text, width, justify).ZeroDivision? <==>
      && justify && width == 0
      && if Strip(text) == "" then Indent(text) > 0 else exists w :: w in Pieces(text) && Blank(w)
  {
    var s, pieces := Strip(text), Pieces(text);
    DividesOnEmptyLines(text, width, justify);
    if s == "" {
      BlankParagraph(Lead(text));
    } else {
      EndsNotBlank(s);
      EmptyFreshLines(Lead(text), pieces);
      SomePieceBlank(pieces);
    }
  }

  lemma BlankParagraph(lead: string)
    requires Blank(lead)
    ensures "" in Lines(lead, lead, [""], 0) <==> lead != ""
  {
    if lead == "" {
      BlankLines(lead, 0);
    } else {
      EmptyFreshLines(lead, [""]);
    }
  }

  lemma DividesOnEmptyLines(text: string, width: int, justify: bool)
    ensures WrappedParagraph(text, width, justify).ZeroDivision? <==> justify && width == 0 && "" in RawLines(text, 0)
  {
  }

  lemma SomePieceBlank(pieces: seq<string>)
    requires pieces != [] && !Blank(pieces[0]) && !Blank(pieces[|pieces| - 1])
    ensures BlankBeforeLast(pieces) <==> exists w :: w in pieces && Blank(w)
  {
    if w :| w in pieces && Blank(w) {
      var i :| 0 <= i < |pieces| && pieces[i] == w;
      assert i < |pieces| - 1;
    }
  }

  // ---------- which lines are rewritten ----------

  lemma QuotientBelow(a: real, b: real, t: real)
    requires b > 0.0
    ensures a / b < t <==> a < t * b
  {
    var q := a / b;
    assert a == q * b;
    if q < t { RealMonotone(q, t, b); }
    if t <= q { RealMonotone(t, q, b); }
  }

  lemma RealMonotone(x: real, y: real, b: real)
    requires b > 0.0 && x <= y
    ensures x * b <= y * b && (x < y ==> x * b < y * b)
  {
  }

  lemma {:induction false} SplitMany(s: string)
    ensures |Split(s)| > 1 <==> ' ' in s
  {
    if s == "" {
    } else {
      SplitMany(s[1..]);
      assert s == [s[0]] + s[1..];
    }
  }

  /** A line is left alone exactly when it is too long, or shorter than the threshold times the width, or has no space
      between its ends. */
  lemma {:induction false} RewritesExactly(text: string, width: int, threshold: real)
    requires width > 0
    ensures Rewrites(text, width, threshold)
      <==> |text| <= width && |text| as real >= threshold * width as real && ' ' in Strip(text)
    ensures !Rewrites(text, width, threshold) ==> Justified(text, width, threshold) == text
  {
    QuotientBelow(|text| as real, width as real, threshold);
    SplitMany(Strip(text));
  }

  // ---------- the length of justified lines ----------

  /** A line that justification leaves as long as it is: it is shorter than 0.8 of the width, or has no gap, or is a
      bullet with a single word. */
  predicate KeepsLength(line: string, width: int)
    requires width > 0
  {
    var words := Split(Strip(line));
    5 * |line| < 4 * width || |words| == 1 || (|words| == 2 && IsBullet(words[0]))
  }

  lemma ThresholdIsFourFifths(line: string, width: int)
    requires width > 0
    ensures BelowThreshold(line, width, THRESHOLD) <==> 5 * |line| < 4 * width
  {
    var n, w := |line| as real, width as real;
    QuotientBelow(n, w, 0.8);
  }

  predicate FullOrKept(raw: string, line: string, width: int)
    requires width > 0
  {
    |line| == if KeepsLength(raw, width) then |raw| else width
  }

  /** A line of clean words behind an indent is nothing but its indent and its words. */
  lemma {:induction false} LineOfCleanWords(indent: nat, group: seq<string>)
    requires group != [] && forall w | w in group :: Clean(w)
    ensures var line := Spaces(indent) + Join(group);
      RStrip(line) == line && Indent(line) == indent && Strip(line) == Join(group) && Stripped(line) == 0
  {
    JoinEnd(group);
    CleanEnds(group);
    LineOfText(indent, Join(group));
  }

  lemma {:induction false} LineOfText(indent: nat, s: string)
    requires s != "" && !IsSpace(s[0]) && !IsSpace(s[|s| - 1])
    ensures var line := Spaces(indent) + s;
      RStrip(line) == line && Indent(line) == indent && Strip(line) == s && Stripped(line) == 0
  {
    var line := Spaces(indent) + s;
    assert line[|line| - 1] == s[|s| - 1];
    StripLead(indent, s);
    IndentOfLead(indent, s);
  }

  lemma CleanEnds(group: seq<string>)
    requires group != [] && forall w | w in group :: Clean(w)
    ensures var s := Join(group); s != "" && !IsSpace(s[0]) && !IsSpace(s[|s| - 1])
  {
    JoinEnd(group);
    var last := group[|group| - 1];
    assert last in group && group[0] in group;
    assert EndOf(last) == EndOf(Join(group));
  }

  lemma StripLead(indent: nat, s: string)
    requires s != "" && !IsSpace(s[0])
    ensures LStrip(Spaces(indent) + s) == s
  {
    var t := Spaces(indent) + s;
    var n := |t| - |LStrip(t)|;
    assert forall k | 0 <= k < n :: IsSpace(t[..n][k]);
    SameStart(t, indent, n);
    assert t[indent..] == s;
  }

  /** The first character that is no space stands at one place only. */
  lemma SameStart(t: string, i: nat, n: nat)
    requires i < |t| && (forall k | 0 <= k < i :: IsSpace(t[k])) && !IsSpace(t[i])
    requires n <= |t| && (forall k | 0 <= k < n :: IsSpace(t[k])) && (n < |t| ==> !IsSpace(t[n]))
    ensures i == n
  {
  }

  lemma {:induction false} IndentOfLead(indent: nat, s: string)
    requires s != "" && s[0] != ' '
    ensures Indent(Spaces(indent) + s) == indent
  {
    var t := Spaces(indent) + s;
    if indent == 0 {
      assert t == s;
    } else {
      IndentOfLead(indent - 1, s);
      assert t[1..] == Spaces(indent - 1) + s && t[0] == ' ';
    }
  }

  lemma FinishedLength(indent: nat, group: seq<string>, width: int)
    requires group != [] && (forall w | w in group :: Clean(w)) && 0 < indent + |Join(group)| <= width
    ensures var line := RStrip(Spaces(indent) + Join(group)); FullOrKept(line, Finished(line, width, true), width)
  {
    LineOfCleanWords(indent, group);
    var line := Spaces(indent) + Join(group);
    ThresholdIsFourFifths(line, width);
    if Rewrites(line, width, THRESHOLD) {
      JustifiedLength(line, width, THRESHOLD);
    }
  }

  lemma {:induction false} RenderedAt(lead: string, groups: seq<seq<string>>, i: nat)
    requires i < |groups|
    ensures |Rendered(lead, groups)| == |groups|
    ensures Rendered(lead, groups)[i] == RStrip(lead + Join(groups[i]))
  {
    if |groups| == 1 {
    } else if i > 0 {
      RenderedAt(lead, groups[1..], i - 1);
    } else {
      RenderedAt(lead, groups[1..], 0);
    }
  }

  lemma {:induction false} FinishedAt(lines: seq<string>, width: int, justify: bool, i: nat)
    requires i < |lines| && !Divides(lines, width, justify)
    ensures |FinishedLines(lines, width, justify)| == |lines|
    ensures !(justify && width == 0 && lines[i] == "")
    ensures FinishedLines(lines, width, justify)[i] == Finished(lines[i], width, justify)
  {
    if |lines| == 1 {
    } else if i > 0 {
      FinishedAt(lines[1..], width, justify, i - 1);
    } else {
      FinishedAt(lines[1..], width, justify, 0);
    }
  }

  lemma {:induction false} NothingToJustify(width: int)
    requires width != 0
    ensures Justified("", width, THRESHOLD) == ""
  {
    if width > 0 { RewritesExactly("", width, THRESHOLD); }
  }

  /** Every line of `plain` that is not empty is justified on its own. */
  ghost predicate LineByLine(plain: seq<string>, lines: seq<string>, width: int) {
    |lines| == |plain| && forall i | 0 <= i < |plain| ::
      lines[i] == if plain[i] == "" then "" else Justified(plain[i], width, THRESHOLD)
  }

  lemma {:induction false} FinishesLineByLine(raw: seq<string>, width: int)
    requires !Divides(raw, width, true)
    ensures LineByLine(raw, FinishedLines(raw, width, true), width)
  {
    if raw != [] { FinishedAt(raw, width, true, 0); }
    forall i | 0 <= i < |raw|
      ensures FinishedLines(raw, width, true)[i] == if raw[i] == "" then "" else Justified(raw[i], width, THRESHOLD)
    {
      FinishedAt(raw, width, true, i);
      if raw[i] == "" { NothingToJustify(width); }
    }
  }

  /** Justification works line by line: it neither moves a line break nor adds or drops a line. An empty line stays
      empty. */
  lemma {:induction false} JustifiesLineByLine(text: string, width: int)
    requires WrappedParagraph(text, width, true).Ok?
    ensures WrappedParagraph(text, width, false).Ok?
    ensures LineByLine(WrappedParagraph(text, width, false).value, WrappedParagraph(text, width, true).value, width)
  {
    var raw := RawLines(text, width);
    FinishedPlainly(raw, width);
    FinishesLineByLine(raw, width);
  }

  lemma {:induction false} CleanGroups(groups: seq<seq<string>>, words: seq<string>)
    requires Flatten(groups) == words && forall w | w in words :: Clean(w)
    ensures forall g | g in groups :: forall w | w in g :: Clean(w)
  {
    if groups == [] {
    } else {
      var later := Flatten(groups[1..]);
      assert forall w | w in groups[0] :: w in words;
      assert forall w | w in later :: w in words;
      CleanGroups(groups[1..], later);
      assert groups == [groups[0]] + groups[1..];
    }
  }

  /** Wrapping with justification a paragraph of words that are separated by single spaces and each fit behind the
      indent: every line has exactly the width, or is one of those whose length justification keeps. */
  lemma JustifiedLinesAreFull(text: string, width: int)
    requires (forall w | w in Pieces(text) :: Clean(w)) && EachFits(Indent(text), Pieces(text), width)
    ensures width > 0 && WrappedParagraph(text, width, true).Ok?
    ensures var raw, lines := RawLines(text, width), WrappedParagraph(text, width, true).value;
      |lines| == |raw| && forall i | 0 <= i < |raw| :: FullOrKept(raw[i], lines[i], width)
  {
    assert Pieces(text)[0] in Pieces(text);
    var groups := RawLinesAreASplit(text, width);
    CleanGroups(groups, Pieces(text));
    var raw := RawLines(text, width);
    RenderedAt(Lead(text), groups, 0);
    FinishedAt(raw, width, true, 0);
    var lines := FinishedLines(raw, width, true);
    forall i | 0 <= i < |raw| ensures FullOrKept(raw[i], lines[i], width) {
      assert groups[i] in groups;
      RenderedAt(Lead(text), groups, i);
      FinishedAt(raw, width, true, i);
      CleanEnds(groups[i]);
      FinishedLength(Indent(text), groups[i], width);
    }
  }
}
