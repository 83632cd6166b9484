/** The number conversion of the driver's print engine: what `prints` and `printi` write. */
module Numbers {
  import opened Arith

  /** C strings by their contents. */
  type cstring = s: string | '\0' !in s

  datatype Pad = Pad(right: bool, zero: bool)

  const TWO_64: int := 0x1_0000_0000_0000_0000
  const TWO_63: int := 0x8000_0000_0000_0000

  function Repeat(c: char, n: nat): (s: string)
    ensures |s| == n && forall i | 0 <= i < n :: s[i] == c
  {
    seq(n, i => c)
  }

  /** The text of `prints`. */
  function Padded(s: string, width: int, pad: Pad): string {
    if width <= |s| then s
    else
      var fill := Repeat(if pad.zero then '0' else ' ', width - |s|);
      if pad.right then s + fill else fill + s
  }

  /** The digit t, letters starting at `letbase`. */
  function DigitChar(t: nat, letbase: char): char
    requires t < 16 && (letbase == 'a' || letbase == 'A')
  {
    if t < 10 then '0' + t as char else letbase + (t - 10) as char
  }

  /** The base-b digits of u; none for zero. */
  function Digits(u: nat, b: nat, letbase: char): (s: string)
    requires 2 <= b <= 16 && (letbase == 'a' || letbase == 'A')
  {
    if u == 0 then "" else
      assert u / b < u by { DivSmaller(u, b); }
      Digits(u / b, b, letbase) + [DigitChar(u % b, letbase)]
  }

  lemma DivSmaller(u: nat, b: nat)
    requires u > 0 && b >= 2
    ensures 0 <= u / b < u && u == (u / b) * b + u % b
  {
    var q := u / b;
    assert u == b * q + u % b;
    MulMonotone(q, 2, b);
    assert q * b == b * q;
  }

  /** `size_t u = i`. */
  function AsUnsigned(i: int): (u: nat)
    requires -TWO_63 <= i < TWO_63
    ensures u < TWO_64
  {
    if i < 0 then i + TWO_64 else i
  }

  predicate Negated(i: int, b: nat, sg: bool) {
    sg && b == 10 && i < 0
  }

  /** The digits printed for i: those of its absolute value when it is printed signed, otherwise those of
      i modulo 2^64; a single 0 for zero. */
  function Body(i: int, b: nat, sg: bool, letbase: char): (s: string)
    requires -TWO_63 <= i < TWO_63 && 2 <= b <= 16 && (letbase == 'a' || letbase == 'A')
    ensures s != ""
  {
    if i == 0 then "0" else Digits(if Negated(i, b, sg) then -i else AsUnsigned(i), b, letbase)
  }

  /** The unpadded text of a number. */
  function Natural(i: int, b: nat, sg: bool, letbase: char): string
    requires -TWO_63 <= i < TWO_63 && 2 <= b <= 16 && (letbase == 'a' || letbase == 'A')
  {
    if Negated(i, b, sg) then "-" + Body(i, b, sg, letbase) else Body(i, b, sg, letbase)
  }

  /** The text of `printi`: zero padding goes between the minus sign and the digits. */
  function Number(i: int, b: nat, sg: bool, width: int, pad: Pad, letbase: char): string
    requires -TWO_63 <= i < TWO_63 && 2 <= b <= 16 && (letbase == 'a' || letbase == 'A')
  {
    if Negated(i, b, sg) && width != 0 && pad.zero then "-" + Padded(Body(i, b, sg, letbase), width - 1, pad)
    else Padded(Natural(i, b, sg, letbase), width, pad)
  }

  // ---------- reading back ----------

  function DigitValue(c: char): nat {
    if '0' <= c <= '9' then (c as int) - 48
    else if 'a' <= c <= 'f' then (c as int) - 87
    else if 'A' <= c <= 'F' then (c as int) - 55
    else 0
  }

  function Value(s: string, b: nat): nat {
    if s == "" then 0 else Value(s[..|s| - 1], b) * b + DigitValue(s[|s| - 1])
  }

  function TrimLeft(s: string): string {
    if s != "" && s[0] == ' ' then TrimLeft(s[1..]) else s
  }

  function TrimRight(s: string): string {
    if s != "" && s[|s| - 1] == ' ' then TrimRight(s[..|s| - 1]) else s
  }

  /** A number read from text: spaces around it are skipped, then an optional '-' and base-b digits. */
  function ReadNumber(s: string, b: nat): int {
    var t := TrimRight(TrimLeft(s));
    if t != "" && t[0] == '-' then -(Value(t[1..], b) as int) else Value(t, b)
  }

  lemma DigitValueOfChar(t: nat, letbase: char)
    requires t < 16 && (letbase == 'a' || letbase == 'A')
    ensures DigitValue(DigitChar(t, letbase)) == t
    ensures DigitChar(t, letbase) != ' ' && DigitChar(t, letbase) != '-' && DigitChar(t, letbase) != '\0'
  {
  }

  predicate Plain(s: string) {
    forall i | 0 <= i < |s| :: s[i] != ' ' && s[i] != '-' && s[i] != '\0'
  }

  lemma {:induction false} DigitsRead(u: nat, b: nat, letbase: char)
    requires 2 <= b <= 16 && (letbase == 'a' || letbase == 'A')
    ensures Value(Digits(u, b, letbase), b) == u
    ensures Plain(Digits(u, b, letbase))
    ensures u > 0 ==> Digits(u, b, letbase) != ""
  {
    if u == 0 {
    } else {
      DivSmaller(u, b);
      DigitsRead(u / b, b, letbase);
      DigitValueOfChar(u % b, letbase);
      OneDigitMore(Digits(u / b, b, letbase), DigitChar(u % b, letbase), b);
    }
  }

  /** A digit, letters being capitals or not. */
  predicate IsHexDigit(c: char, upper: bool) {
    '0' <= c <= '9' || if upper then 'A' <= c <= 'F' else 'a' <= c <= 'f'
  }

  /** The numeral of v in base b: its digits have that value, and there are no leading zeros. */
  predicate IsNumeral(s: string, v: nat, b: nat, upper: bool) {
    && s != "" && Value(s, b) == v
    && (forall i | 0 <= i < |s| :: IsHexDigit(s[i], upper) && DigitValue(s[i]) < b)
    && (s[0] == '0' ==> s == "0")
  }

  lemma HexDigitOf(t: nat, letbase: char)
    requires t < 16 && (letbase == 'a' || letbase == 'A')
    ensures IsHexDigit(DigitChar(t, letbase), letbase == 'A') && DigitValue(DigitChar(t, letbase)) == t
    ensures DigitChar(t, letbase) == '0' <==> t == 0
  {
  }

  lemma {:induction false} NumeralOfOne(c: char, b: nat, upper: bool)
    requires IsHexDigit(c, upper) && DigitValue(c) < b
    ensures IsNumeral([c], DigitValue(c), b, upper)
  {
    assert [c][..0] == "" && Value("", b) == 0;
  }

  lemma {:induction false} NumeralSnoc(front: string, v: nat, c: char, b: nat, upper: bool)
    requires IsNumeral(front, v, b, upper) && front[0] != '0' && IsHexDigit(c, upper) && DigitValue(c) < b
    ensures IsNumeral(front + [c], v * b + DigitValue(c), b, upper) && (front + [c])[0] != '0'
  {
    OneDigitMore(front, c, b);
  }

  lemma {:induction false} DigitsAreNumeral(u: nat, b: nat, letbase: char)
    requires 2 <= b <= 16 && (letbase == 'a' || letbase == 'A') && u > 0
    ensures IsNumeral(Digits(u, b, letbase), u, b, letbase == 'A') && Digits(u, b, letbase)[0] != '0'
  {
    DivSmaller(u, b);
    HexDigitOf(u % b, letbase);
    var front, c := Digits(u / b, b, letbase), DigitChar(u % b, letbase);
    if u / b == 0 {
      NumeralOfOne(c, b, letbase == 'A');
      assert front + [c] == [c];
    } else {
      DigitsAreNumeral(u / b, b, letbase);
      NumeralSnoc(front, u / b, c, b, letbase == 'A');
    }
  }

  lemma OneDigitMore(s: string, c: char, b: nat)
    ensures Value(s + [c], b) == Value(s, b) * b + DigitValue(c)
    ensures Plain(s) && Plain([c]) ==> Plain(s + [c])
  {
    assert (s + [c])[..|s|] == s;
  }

  lemma {:induction false} DigitsBound(u: nat, b: nat, letbase: char, c: nat, k: nat)
    requires 2 <= c <= b <= 16 && (letbase == 'a' || letbase == 'A')
    requires u < Pow(c, k)
    ensures |Digits(u, b, letbase)| <= k
    decreases k
  {
    if u == 0 {
    } else {
      assert k > 0;
      var p := Pow(c, k - 1);
      DivSmaller(u, b);
      assert u == b * (u / b) + u % b;
      assert p * b == b * p && p * c == c * p;
      MulMonotone(p, c, b);
      if u / b >= p { MulMonotone(b, p, u / b); }
      DigitsBound(u / b, b, letbase, c, k - 1);
    }
  }

  lemma BigPowers()
    ensures Pow(10, 20) == 100_000_000_000_000_000_000 && Pow(16, 16) == TWO_64
  {
    assert Pow(10, 2) == 100 && Pow(16, 2) == 256;
    PowSum(10, 2, 2);
    PowSum(10, 4, 1);
    PowSum(10, 5, 5);
    PowSum(10, 10, 10);
    PowSum(16, 2, 2);
    PowSum(16, 4, 4);
    PowSum(16, 8, 8);
  }

  /** At most 20 digits in base 10 and 16 digits in base 16, far from the 63 that `print_buf` can hold. */
  lemma DigitsFitBuffer(u: nat, b: nat, letbase: char)
    requires (b == 10 || b == 16) && (letbase == 'a' || letbase == 'A') && u < TWO_64
    ensures |Digits(u, b, letbase)| <= if b == 10 then 20 else 16
  {
    BigPowers();
    if b == 10 { DigitsBound(u, b, letbase, 10, 20); } else { DigitsBound(u, b, letbase, 16, 16); }
  }

  lemma BodyReads(i: int, b: nat, sg: bool, letbase: char)
    requires -TWO_63 <= i < TWO_63 && 2 <= b <= 16 && (letbase == 'a' || letbase == 'A')
    ensures Plain(Body(i, b, sg, letbase))
    ensures Value(Body(i, b, sg, letbase), b) == if Negated(i, b, sg) then -i else AsUnsigned(i)
  {
    if i != 0 {
      DigitsRead(if Negated(i, b, sg) then -i else AsUnsigned(i), b, letbase);
    } else {
      assert Value("0", b) == Value("", b) * b + DigitValue('0') by { assert "0"[..0] == ""; }
    }
  }

  /** The digits of a number are the numeral of its absolute value, or of the number modulo 2^64. */
  lemma BodyIsNumeral(i: int, b: nat, sg: bool, letbase: char)
    requires -TWO_63 <= i < TWO_63 && 2 <= b <= 16 && (letbase == 'a' || letbase == 'A')
    ensures IsNumeral(Body(i, b, sg, letbase), if Negated(i, b, sg) then -i else AsUnsigned(i), b, letbase == 'A')
  {
    BodyReads(i, b, sg, letbase);
    if i != 0 {
      DigitsAreNumeral(if Negated(i, b, sg) then -i else AsUnsigned(i), b, letbase);
    }
  }

  // ---------- padding and reading ----------

  lemma {:induction false} ValueAppend(s: string, t: string, b: nat)
    ensures Value(s + t, b) == Value(s, b) * Pow(b, |t|) + Value(t, b)
  {
    if t == "" {
      assert s + t == s;
    } else {
      var t', c := t[..|t| - 1], DigitValue(t[|t| - 1]);
      ValueAppend(s, t', b);
      assert (s + t)[..|s + t| - 1] == s + t';
      ShiftSum(Value(s, b), Pow(b, |t'|), Value(t', b), b, c);
    }
  }

  lemma ShiftSum(v: int, p: int, w: int, b: int, c: int)
    ensures (v * p + w) * b + c == v * (b * p) + (w * b + c)
  {
  }

  lemma {:induction false} ZerosAreZero(k: nat, b: nat)
    ensures Value(Repeat('0', k), b) == 0
  {
    if k == 0 {
    } else {
      ZerosAreZero(k - 1, b);
      assert Repeat('0', k)[..k - 1] == Repeat('0', k - 1);
    }
  }

  lemma LeftZeros(k: nat, s: string, b: nat)
    ensures Value(Repeat('0', k) + s, b) == Value(s, b)
  {
    ValueAppend(Repeat('0', k), s, b);
    ZerosAreZero(k, b);
  }

  lemma {:induction false} RightZeros(s: string, k: nat, b: nat)
    ensures Value(s + Repeat('0', k), b) == Value(s, b) * Pow(b, k)
  {
    ValueAppend(s, Repeat('0', k), b);
    ZerosAreZero(k, b);
  }

  lemma {:induction false} TrimLeftOf(k: nat, t: string)
    requires t != "" && t[0] != ' '
    ensures TrimLeft(Repeat(' ', k) + t) == t
  {
    var s := Repeat(' ', k) + t;
    if k > 0 {
      TrimLeftOf(k - 1, t);
      assert s[1..] == Repeat(' ', k - 1) + t;
    } else {
      assert s == t;
    }
  }

  lemma {:induction false} TrimRightOf(t: string, k: nat)
    requires t != "" && t[|t| - 1] != ' '
    ensures TrimRight(t + Repeat(' ', k)) == t
  {
    var s := t + Repeat(' ', k);
    if k > 0 {
      TrimRightOf(t, k - 1);
      assert s[..|s| - 1] == t + Repeat(' ', k - 1);
    } else {
      assert s == t;
    }
  }

  /** Spaces around a number do not matter. */
  lemma ReadTrimmed(left: nat, neg: bool, digits: string, right: nat, b: nat)
    requires Plain(digits) && digits != ""
    ensures var core := if neg then "-" + digits else digits;
      ReadNumber(Repeat(' ', left) + (core + Repeat(' ', right)), b)
        == if neg then -(Value(digits, b) as int) else Value(digits, b)
  {
    var core := if neg then "-" + digits else digits;
    TrimLeftOf(left, core + Repeat(' ', right));
    TrimRightOf(core, right);
    if neg { assert core[1..] == digits; }
  }

  // ---------- what printi promises ----------

  /** The number that is printed. */
  function Meaning(i: int, b: nat, sg: bool): int
    requires -TWO_63 <= i < TWO_63
  {
    if sg && b == 10 then i else AsUnsigned(i)
  }

  /** Every number takes exactly its width, or its natural length if that is longer. */
  lemma NumberLength(i: int, b: nat, sg: bool, width: nat, pad: Pad, letbase: char)
    requires -TWO_63 <= i < TWO_63 && 2 <= b <= 16 && (letbase == 'a' || letbase == 'A')
    ensures var natural := |Natural(i, b, sg, letbase)|;
      |Number(i, b, sg, width, pad, letbase)| == if natural < width then width else natural
  {
  }

  /** The padding of a number that is `short` characters too short: spaces or zeros, before or behind. */
  function Fill(pad: Pad, right: bool, zero: bool, short: nat): nat {
    if pad == Pad(right, zero) then short else 0
  }

  lemma PaddedShape(s: string, width: int, pad: Pad, short: nat)
    requires short == if |s| < width then width - |s| else 0
    ensures Padded(s, width, pad) ==
      Repeat(' ', Fill(pad, false, false, short))
      + ((Repeat('0', Fill(pad, false, true, short)) + s + Repeat('0', Fill(pad, true, true, short)))
         + Repeat(' ', Fill(pad, true, false, short)))
  {
  }

  /** Where the padding goes: spaces outside, zeros between the sign and the digits or behind the digits. */
  lemma NumberShape(i: int, b: nat, sg: bool, width: nat, pad: Pad, letbase: char, short: nat)
    requires -TWO_63 <= i < TWO_63 && 2 <= b <= 16 && (letbase == 'a' || letbase == 'A')
    requires var natural := |Natural(i, b, sg, letbase)|; short == if natural < width then width - natural else 0
    ensures var digits := Repeat('0', Fill(pad, false, true, short)) + Body(i, b, sg, letbase)
                          + Repeat('0', Fill(pad, true, true, short));
      Number(i, b, sg, width, pad, letbase) ==
        Repeat(' ', Fill(pad, false, false, short))
        + ((if Negated(i, b, sg) then "-" + digits else digits) + Repeat(' ', Fill(pad, true, false, short)))
  {
    var body := Body(i, b, sg, letbase);
    if Negated(i, b, sg) {
      NegativeShape(body, width, pad, short, Number(i, b, sg, width, pad, letbase));
    } else {
      PaddedShape(body, width, pad, short);
    }
  }

  lemma {:induction false} NegativeShape(body: string, width: nat, pad: Pad, short: nat, text: string)
    requires short == if 1 + |body| < width then width - 1 - |body| else 0
    requires text ==
      if width != 0 && pad.zero then "-" + Padded(body, width - 1, pad) else Padded("-" + body, width, pad)
    ensures var digits := Repeat('0', Fill(pad, false, true, short)) + body + Repeat('0', Fill(pad, true, true, short));
      text == Repeat(' ', Fill(pad, false, false, short)) + ("-" + digits + Repeat(' ', Fill(pad, true, false, short)))
  {
    if width != 0 && pad.zero {
      PaddedShape(body, width - 1, pad, short);
      assert Repeat(' ', 0) == "";
      assert Padded(body, width - 1, pad)
        == Repeat('0', Fill(pad, false, true, short)) + body + Repeat('0', Fill(pad, true, true, short));
    } else {
      PaddedShape("-" + body, width, pad, short);
      NothingAround(body);
    }
  }

  lemma NothingAround(body: string)
    ensures Repeat('0', 0) + ("-" + body) + Repeat('0', 0) == "-" + (Repeat('0', 0) + body + Repeat('0', 0))
  {
  }

  lemma PlainAround(k: nat, s: string, l: nat)
    requires Plain(s) && s != ""
    ensures var t := Repeat('0', k) + s + Repeat('0', l); Plain(t) && t != ""
  {
  }

  lemma ScaledIsSame(v: nat, b: nat, k: nat)
    requires b >= 2
    ensures v * Pow(b, k) == v <==> v == 0 || k == 0
  {
    PowPositive(b, if k == 0 then 0 else k - 1);
    if k > 0 {
      var p := Pow(b, k - 1);
      MulMonotone(b, 1, p);
      if v > 0 { MulMonotone(v, 2, Pow(b, k)); }
    }
  }

  /** The conversion round trip: reading the printed text back gives the number, unless zeros were padded on
      the right of a number other than zero. */
  lemma NumberRoundTrip(i: int, b: nat, sg: bool, width: nat, pad: Pad, letbase: char)
    requires -TWO_63 <= i < TWO_63 && (b == 10 || b == 16) && (letbase == 'a' || letbase == 'A')
    ensures ReadNumber(Number(i, b, sg, width, pad, letbase), b) == Meaning(i, b, sg)
      <==> !(pad.right && pad.zero && |Natural(i, b, sg, letbase)| < width && i != 0)
  {
    var natural := |Natural(i, b, sg, letbase)|;
    var short := if natural < width then width - natural else 0;
    var body := Body(i, b, sg, letbase);
    var left, right := Fill(pad, false, true, short), Fill(pad, true, true, short);
    var digits := Repeat('0', left) + body + Repeat('0', right);
    NumberShape(i, b, sg, width, pad, letbase, short);
    BodyReads(i, b, sg, letbase);
    PlainAround(left, body, right);
    ReadTrimmed(Fill(pad, false, false, short), Negated(i, b, sg), digits, Fill(pad, true, false, short), b);
    LeftZeros(left, body, b);
    RightZeros(Repeat('0', left) + body, right, b);
    ScaledIsSame(Value(body, b), b, right);
  }
}
