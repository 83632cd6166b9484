/** `DocTextWrapper.wrap_justify`: stretching one line to a width by distributing spaces. */
module Justify {
  import opened Arith
  import opened PyString

  /** Everything `wrap_justify` may run into: a value, or Python's division by zero. */
  datatype Outcome<T> = Ok(value: T) | ZeroDivision

  /** a / b rounded up, for a that is not negative: so many steps of b reach a. */
  function CeilDiv(a: int, b: int): int
    requires b > 0
    decreases a
  {
    if a <= 0 then 0 else 1 + CeilDiv(a - b, b)
  }

  lemma {:induction false} CeilBounds(a: int, b: int)
    requires a >= 0 && b > 0
    ensures b * (CeilDiv(a, b) - 1) < a <= b * CeilDiv(a, b)
    decreases a
  {
    if a > b {
      CeilBounds(a - b, b);
      var c := CeilDiv(a - b, b);
      assert b * (c + 1) == b * c + b && b * (c - 1) == b * c - b;
    }
  }

  /** How many spaces stand before the end of gap k, out of `total` spaces over `n` gaps:
      the least number whose average over k gaps reaches total / n. */
  function Quota(total: int, n: nat, k: nat): int
    requires n > 0
  {
    CeilDiv(k * total, n)
  }

  predicate IsBullet(word: string) {
    word == "-" || word == "*"
  }

  /** The spaces placed in the first k gaps; a gap after a leading bullet is always one space. */
  function Placed(bullet: bool, total: int, n: nat, k: nat): int
    requires n > 0
  {
    if k == 0 then 0 else if k == 1 && bullet then 1 else Quota(total, n, k)
  }

  lemma CeilUnique(a: int, b: int, q: int)
    requires a >= 0 && b > 0 && b * (q - 1) < a <= b * q
    ensures q == CeilDiv(a, b)
  {
    var c := CeilDiv(a, b);
    CeilBounds(a, b);
    if q < c { MulMonotone(b, q, c - 1); }
    if c < q { MulMonotone(b, c, q - 1); }
  }

  lemma CeilAtMost(a: int, b: int, s: int)
    requires a >= 0 && b > 0 && a <= b * s
    ensures CeilDiv(a, b) <= s
  {
    CeilBounds(a, b);
    if s < CeilDiv(a, b) { MulMonotone(b, s, CeilDiv(a, b) - 1); }
  }

  lemma {:induction false} CeilMonotone(a: int, a': int, b: int)
    requires b > 0 && a <= a'
    ensures CeilDiv(a, b) <= CeilDiv(a', b)
    decreases a'
  {
    if a' > 0 { CeilMonotone(a - b, a' - b, b); }
  }

  lemma SomeSpaces(total: int, k: nat)
    requires total >= 0
    ensures k * total >= 0
  {
  }

  /** When there are at least as many spaces as gaps, every gap of the even distribution gets one. */
  lemma QuotaGrows(total: int, n: nat, k: nat)
    requires 0 < n <= total
    ensures Quota(total, n, k + 1) >= Quota(total, n, k) + 1
  {
    assert (k + 1) * total == k * total + total;
    SomeSpaces(total, k);
    CeilMonotone(k * total + n, k * total + total, n);
  }

  lemma {:induction false} QuotaPositive(total: int, n: nat, k: nat)
    requires 0 < n <= total
    ensures Quota(total, n, k) >= k
  {
    if k == 0 {
      assert k * total == 0;
    } else {
      QuotaPositive(total, n, k - 1);
      QuotaGrows(total, n, k - 1);
    }
  }

  lemma PlacedGrows(bullet: bool, total: int, n: nat, k: nat)
    requires 0 < n <= total
    ensures Placed(bullet, total, n, k + 1) >= Placed(bullet, total, n, k) + 1
  {
    QuotaGrows(total, n, k);
    QuotaPositive(total, n, k);
    QuotaPositive(total, n, k + 1);
  }

  /** Where the space loop stops: it adds spaces one by one from `before` until the average is reached. */
  lemma {:induction false} LoopStopsAtQuota(bullet: bool, total: int, n: nat, k: nat, before: int, s: int)
    requires 0 < n <= total && k > 0 && (k == 1 ==> !bullet)
    requires before == Placed(bullet, total, n, k - 1) <= s
    requires n * s >= k * total
    requires s > before ==> n * (s - 1) < k * total
    ensures s == Placed(bullet, total, n, k)
  {
    PlacedGrows(bullet, total, n, k - 1);
    SomeSpaces(total, k);
    CeilAtMost(k * total, n, s);
    if s > before {
      CeilUnique(k * total, n, s);
    }
  }

  function Gap(bullet: bool, total: int, n: nat, k: nat): (g: nat)
    requires 0 < n <= total
    ensures g >= 1
  {
    PlacedGrows(bullet, total, n, k);
    Placed(bullet, total, n, k + 1) - Placed(bullet, total, n, k)
  }

  /** The first k words, each followed by its gap. */
  function Spread(words: seq<string>, bullet: bool, total: int, n: nat, k: nat): string
    requires 0 < n <= total && k <= |words|
  {
    if k == 0 then ""
    else Spread(words, bullet, total, n, k - 1) + words[k - 1] + Spaces(Gap(bullet, total, n, k - 1))
  }

  /** Spaces to place on a line of n gaps: what the width leaves over after all other characters. */
  function TotalSpaces(text: string, width: int, n: nat): int {
    width - (|text| - n)
  }

  predicate BelowThreshold(text: string, width: int, threshold: real)
    requires width != 0
  {
    |text| as real / width as real < threshold
  }

  predicate Rewrites(text: string, width: int, threshold: real)
    requires width != 0 || text != ""
  {
    |text| <= width && !BelowThreshold(text, width, threshold) && |Split(Strip(text))| > 1
  }

  /** The rebuilt line: the indent, every word but the last with its gap, and the last word. */
  function Rebuilt(leading: string, words: seq<string>, total: int): string
    requires 0 < |words| - 1 <= total
  {
    var n := |words| - 1;
    leading + Spread(words, IsBullet(words[0]), total, n, n) + words[n]
  }

  function Justified(text: string, width: int, threshold: real): string
    requires width != 0 || text != ""
  {
    if !Rewrites(text, width, threshold) then text
    else
      var words := Split(Strip(text));
      Rebuilt(Spaces(Indent(text)), words, TotalSpaces(text, width, |words| - 1))
  }

  function Sum(s: seq<int>): int {
    if s == [] then 0 else Sum(s[..|s| - 1]) + s[|s| - 1]
  }

  lemma SumLast(s: seq<int>, v: int)
    ensures Sum(s + [v]) == Sum(s) + v
  {
    assert (s + [v])[..|s|] == s;
  }

  function AddToLast(s: seq<int>): (t: seq<int>)
    requires |s| > 0
    ensures |t| == |s| && t[..|s| - 1] == s[..|s| - 1]
    ensures Sum(t) == Sum(s) + 1
  {
    var init := s[..|s| - 1];
    assert s == init + [s[|s| - 1]];
    SumLast(init, s[|s| - 1]);
    SumLast(init, s[|s| - 1] + 1);
    init + [s[|s| - 1] + 1]
  }

  /** The space loop of `wrap_justify`: append spaces until the average gap reaches total / n.
      The comparison of averages is exact: sum / k < total / n is n * sum < k * total. */
  method FillGap(text: string, widths: seq<int>, total: int, n: nat)
    returns (text': string, widths': seq<int>)
    requires |widths| > 0 && n > 0
    ensures |widths'| == |widths| && Sum(widths') >= Sum(widths)
    ensures text' == text + Spaces(Sum(widths') - Sum(widths))
    ensures n * Sum(widths') >= |widths| * total
    ensures Sum(widths') > Sum(widths) ==> n * (Sum(widths') - 1) < |widths| * total
  {
    text', widths' := text, widths;
    while n * Sum(widths') < |widths'| * total
      invariant |widths'| == |widths| && Sum(widths') >= Sum(widths)
      invariant text' == text + Spaces(Sum(widths') - Sum(widths))
      invariant Sum(widths') > Sum(widths) ==> n * (Sum(widths') - 1) < |widths| * total
      decreases |widths| * total - n * Sum(widths')
    {
      ghost var s := Sum(widths');
      text' := text' + " ";
      widths' := AddToLast(widths');
      assert Spaces(s - Sum(widths)) + " " == Spaces(s + 1 - Sum(widths));
      assert n * (s + 1) == n * s + n;
    }
  }

  /** `wrap_justify`. */
  method WrapJustify(text: string, width: int, threshold: real) returns (r: Outcome<string>)
    ensures r.ZeroDivision? <==> width == 0 && text == ""
    ensures r.Ok? ==> r.value == Justified(text, width, threshold)
  {
    if |text| > width {
      return Ok(text);
    }
    if width == 0 {
      return ZeroDivision;
    }
    var result := StretchUnlessShort(text, width, threshold);
    return Ok(result);
  }

  /** The rest of it, once the quotient of the lengths is known to exist. */
  method StretchUnlessShort(text: string, width: int, threshold: real) returns (result: string)
    requires |text| <= width && width > 0
    ensures result == Justified(text, width, threshold)
  {
    var words := Split(Strip(text));
    JustifiedCases(text, width, threshold, words);
    if BelowThreshold(text, width, threshold) {
      return text;
    }
    if |words| - 1 <= 0 {
      return text;
    }
    result := StretchLine(text, words, width);
  }

  lemma {:induction false} JustifiedCases(text: string, width: int, threshold: real, words: seq<string>)
    requires |text| <= width && width > 0 && words == Split(Strip(text))
    ensures Justified(text, width, threshold) ==
      if BelowThreshold(text, width, threshold) || |words| <= 1 then text
      else Rebuilt(Spaces(Indent(text)), words, TotalSpaces(text, width, |words| - 1))
  {
  }

  /** A line of several words, once it is known that it is to be stretched. */
  method StretchLine(text: string, words: seq<string>, width: int) returns (result: string)
    requires |text| <= width && |words| > 1
    ensures result == Rebuilt(Spaces(Indent(text)), words, TotalSpaces(text, width, |words| - 1))
  {
    var n := |words| - 1;
    var total := width - (|text| - n);
    result := JustifyWords(Spaces(Indent(text)), words, total);
  }

  /** The word loop of `wrap_justify`. */
  method JustifyWords(leading: string, words: seq<string>, total: int) returns (result: string)
    requires |words| > 1 && total >= |words| - 1
    ensures result == Rebuilt(leading, words, total)
  {
    var n := |words| - 1;
    result := leading;
    var widths := [0];
    ghost var bullet := IsBullet(words[0]);
    for i := 0 to n
      invariant |widths| == i + 1
      invariant Sum(widths) == Placed(bullet, total, n, i)
      invariant result == leading + Spread(words, bullet, total, n, i)
    {
      result, widths := PlaceWord(result, words[i], i, widths, total, n, bullet);
      assert result == leading + (Spread(words, bullet, total, n, i) + words[i] + Spaces(Gap(bullet, total, n, i)));
      SumLast(widths, 0);
      widths := widths + [0];
    }
    result := result + words[n];
  }

  /** A word and the gap behind it. */
  method PlaceWord(text: string, word: string, i: nat, widths: seq<int>, total: int, n: nat, ghost bullet: bool)
    returns (text': string, widths': seq<int>)
    requires 0 < n <= total && i < n && |widths| == i + 1 && (i == 0 ==> bullet == IsBullet(word))
    requires Sum(widths) == Placed(bullet, total, n, i)
    ensures |widths'| == i + 1 && Sum(widths') == Placed(bullet, total, n, i + 1)
    ensures text' == text + word + Spaces(Gap(bullet, total, n, i))
  {
    if IsBullet(word) && i == 0 {
      text' := text + word + " ";
      widths' := AddToLast(widths);
      assert Spaces(1) == " ";
    } else {
      text', widths' := FillGap(text + word, widths, total, n);
      LoopStopsAtQuota(bullet, total, n, i + 1, Sum(widths), Sum(widths'));
    }
  }
}
