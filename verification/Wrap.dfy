/** `DocTextWrapper.wrap_paragraph` and `DocText.wrap`. */
module Wrap {
  import opened PyString
  import opened TextParagraphs
  import opened Justify
  import opened JustifyProofs

  const THRESHOLD: real := 0.8

  // ---------- one paragraph ----------

  predicate Overflows(line: string, word: string, width: int) {
    |line| + |word| > width
  }

  /** The finished lines when `line` is under construction and `words` are still to come. */
  function Lines(lead: string, line: string, words: seq<string>, width: int): seq<string>
    decreases |words|
  {
    if words == [] then (if RStrip(line) != "" then [RStrip(line)] else [])
    else if Overflows(line, words[0], width) then
      [RStrip(if line == lead then line + words[0] else line)]
      + Lines(lead, lead + words[0] + " ", words[1..], width)
    else Lines(lead, line + words[0] + " ", words[1..], width)
  }

  function Lead(text: string): string {
    Spaces(Indent(text))
  }

  function Pieces(text: string): seq<string> {
    Split(Strip(text))
  }

  /** The lines of a paragraph before justification. */
  function RawLines(text: string, width: int): seq<string> {
    Lines(Lead(text), Lead(text), Pieces(text), width)
  }

  /** Justifying a line may divide by a zero width. */
  predicate Divides(lines: seq<string>, width: int, justify: bool) {
    justify && width == 0 && "" in lines
  }

  function Finished(line: string, width: int, justify: bool): string
    requires justify ==> width != 0 || line != ""
  {
    if justify then Justified(line, width, THRESHOLD) else line
  }

  function FinishedLines(lines: seq<string>, width: int, justify: bool): seq<string>
    requires !Divides(lines, width, justify)
  {
    if lines == [] then [] else [Finished(lines[0], width, justify)] + FinishedLines(lines[1..], width, justify)
  }

  function FinishAll(lines: seq<string>, width: int, justify: bool): Outcome<seq<string>> {
    if Divides(lines, width, justify) then ZeroDivision
    else Ok(OrBlankLine(FinishedLines(lines, width, justify)))
  }

  /** Justification works line by line: it never moves a line break. */
  function WrappedParagraph(text: string, width: int, justify: bool): Outcome<seq<string>> {
    FinishAll(RawLines(text, width), width, justify)
  }

  lemma {:induction false} FinishedSnoc(lines: seq<string>, line: string, width: int, justify: bool)
    requires !Divides(lines + [line], width, justify)
    ensures !Divides(lines, width, justify) && !Divides([line], width, justify)
    ensures FinishedLines(lines + [line], width, justify)
         == FinishedLines(lines, width, justify) + [Finished(line, width, justify)]
  {
    assert line in lines + [line];
    if lines == [] {
      assert lines + [line] == [line];
    } else {
      assert (lines + [line])[1..] == lines[1..] + [line];
      assert forall l | l in lines[1..] + [line] :: l in lines + [line];
      FinishedSnoc(lines[1..], line, width, justify);
    }
  }

  lemma RStripTwice(s: string)
    ensures RStrip(RStrip(s)) == RStrip(s)
  {
  }

  /** `lines` are the finished forms of `raw`. */
  ghost predicate Emitted(raw: seq<string>, lines: seq<string>, width: int, justify: bool) {
    !Divides(raw, width, justify) && lines == FinishedLines(raw, width, justify)
  }

  /** The end of a line in `wrap_paragraph`: strip it on the right, justify it if wanted, and emit it. */
  method EmitLine(line: string, lines: seq<string>, width: int, justify: bool, ghost raw: seq<string>)
    returns (r: Outcome<seq<string>>)
    requires Emitted(raw, lines, width, justify)
    ensures r.Ok? ==> Emitted(raw + [RStrip(line)], r.value, width, justify)
    ensures r.ZeroDivision? ==> justify && width == 0 && RStrip(line) == ""
  {
    RStripTwice(line);
    var finished := RStrip(line);
    if justify {
      var justified := WrapJustify(finished, width, THRESHOLD);
      if justified.ZeroDivision? {
        return ZeroDivision;
      }
      JustifiedEnd(finished, width, THRESHOLD);
      finished := justified.value;
    }
    FinishedSnoc(raw, RStrip(line), width, justify);
    return Ok(lines + [RStrip(finished)]);
  }

  method WrapParagraph(text: string, width: int, justify: bool) returns (r: Outcome<seq<string>>)
    ensures r == WrappedParagraph(text, width, justify)
  {
    var lead := Spaces(Indent(text));
    var words := Split(Strip(text));
    r := WrapWords(lead, words, width, justify);
  }

  /** The word loop of `wrap_paragraph`. */
  method WrapWords(lead: string, words: seq<string>, width: int, justify: bool)
    returns (r: Outcome<seq<string>>)
    ensures r == FinishAll(Lines(lead, lead, words, width), width, justify)
  {
    var lines := [];
    var line := lead;
    ghost var raw := [];
    for i := 0 to |words|
      invariant Lines(lead, lead, words, width) == raw + Lines(lead, line, words[i..], width)
      invariant Emitted(raw, lines, width, justify)
    {
      LinesStep(lead, line, words, i, width, raw);
      if |line + words[i]| > width {
        if line == lead {
          line := line + words[i];
        }
        var emitted := EmitLine(line, lines, width, justify, raw);
        raw := raw + [RStrip(line)];
        if emitted.ZeroDivision? {
          assert raw[|raw| - 1] in Lines(lead, lead, words, width);
          return ZeroDivision;
        }
        lines := emitted.value;
        line := lead + words[i] + " ";
      } else {
        line := line + words[i] + " ";
      }
    }
    assert words[|words|..] == [];
    if RStrip(line) != "" {
      var emitted := EmitLine(line, lines, width, justify, raw);
      lines := emitted.value;
      raw := raw + [RStrip(line)];
    }
    assert raw == Lines(lead, lead, words, width);
    if lines == [] {
      lines := [""];
    }
    r := Ok(lines);
  }

  lemma LinesStep(lead: string, line: string, words: seq<string>, i: nat, width: int, raw: seq<string>)
    requires i < |words|
    ensures raw + Lines(lead, line, words[i..], width) ==
      if Overflows(line, words[i], width) then
        raw + [RStrip(if line == lead then line + words[i] else line)]
        + Lines(lead, lead + words[i] + " ", words[i + 1..], width)
      else raw + Lines(lead, line + words[i] + " ", words[i + 1..], width)
  {
    assert words[i..][1..] == words[i + 1..];
  }

  // ---------- a whole text ----------

  function Prepend(lines: seq<string>, r: Outcome<seq<string>>): Outcome<seq<string>> {
    match r
    case ZeroDivision => ZeroDivision
    case Ok(rest) => Ok(lines + rest)
  }

  /** The wrapped paragraphs one after another; a division by zero ends the work. */
  function WrappedAll(paragraphs: seq<string>, width: int, justify: bool): Outcome<seq<string>> {
    if paragraphs == [] then Ok([])
    else
      match WrappedParagraph(paragraphs[0], width, justify)
      case ZeroDivision => ZeroDivision
      case Ok(lines) => Prepend(lines, WrappedAll(paragraphs[1..], width, justify))
  }

  lemma PrependNone(r: Outcome<seq<string>>)
    ensures Prepend([], r) == r
  {
    if r.Ok? { assert [] + r.value == r.value; }
  }

  lemma PrependTwice(a: seq<string>, b: seq<string>, r: Outcome<seq<string>>)
    ensures Prepend(a, Prepend(b, r)) == Prepend(a + b, r)
  {
    if r.Ok? { Assoc(a, b, r.value); }
  }

  /** `DocText.wrap`. */
  method WrapText(text: string, width: int, justify: bool) returns (r: Outcome<seq<string>>)
    ensures r == WrappedAll(ParagraphsOf(text), width, justify)
  {
    var paragraphs := ToParagraphs(text);
    r := WrapAll(paragraphs, width, justify);
  }

  /** The paragraph loop of `DocText.wrap`. */
  method WrapAll(paragraphs: seq<string>, width: int, justify: bool) returns (r: Outcome<seq<string>>)
    ensures r == WrappedAll(paragraphs, width, justify)
  {
    var result := [];
    PrependNone(WrappedAll(paragraphs, width, justify));
    assert paragraphs[0..] == paragraphs;
    for i := 0 to |paragraphs|
      invariant WrappedAll(paragraphs, width, justify)
             == Prepend(result, WrappedAll(paragraphs[i..], width, justify))
    {
      var lines := WrapParagraph(paragraphs[i], width, justify);
      assert paragraphs[i..][1..] == paragraphs[i + 1..];
      if lines.ZeroDivision? {
        return ZeroDivision;
      }
      PrependTwice(result, lines.value, WrappedAll(paragraphs[i + 1..], width, justify));
      result := result + lines.value;
    }
    assert paragraphs[|paragraphs|..] == [];
    assert result + [] == result;
    r := Ok(result);
  }
}
