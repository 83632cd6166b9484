/** The signed number appenders: `ZydisStringAppendDecS` and `ZydisStringAppendHexS`. The unsigned ones that
    they call stand for their documented contract: prefix, zero-padded digits, suffix, if all of it fits. */
module ZyanNumber {
  import opened Bytes
  import opened Numbers
  import Strings = ZyanString

  type ZyanString = Strings.ZyanString

  datatype Radix = Dec | Hex(forceLeading: bool, uppercase: bool)

  function Base(radix: Radix): nat {
    if radix.Dec? then 10 else 16
  }

  datatype View = NoView | View(text: seq<byte>)

  function ViewText(v: View): seq<byte> {
    if v.View? then v.text else []
  }

  predicate IsAscii(s: string) {
    forall i | 0 <= i < |s| :: (s[i] as int) < 256
  }

  function ToBytes(s: string): (b: seq<byte>)
    requires IsAscii(s)
    ensures |b| == |s| && forall i | 0 <= i < |s| :: b[i] == s[i] as int
  {
    seq(|s|, i requires 0 <= i < |s| => s[i] as int)
  }

  function ToChars(b: seq<byte>): (s: string)
    ensures |s| == |b| && forall i | 0 <= i < |s| :: s[i] as int == b[i]
  {
    seq(|b|, i requires 0 <= i < |b| => b[i] as char)
  }

  /** The digits of an unsigned number. */
  function UnsignedDigits(radix: Radix, value: nat): string {
    if value == 0 then "0"
    else if radix.Dec? then Digits(value, 10, 'a')
    else Digits(value, 16, if radix.uppercase then 'A' else 'a')
  }

  /** Leading zeros up to the padding length, and one in front of a letter if that is forced. */
  function Zeros(radix: Radix, value: nat, padding: nat): nat {
    var digits := UnsignedDigits(radix, value);
    if |digits| < padding then padding - |digits|
    else if radix.Hex? && radix.forceLeading && digits != "" && !('0' <= digits[0] <= '9') then 1
    else 0
  }

  function UnsignedText(radix: Radix, value: nat, padding: nat): (s: string)
    ensures IsAscii(s)
  {
    DigitsAreAscii(radix, value);
    Repeat('0', Zeros(radix, value, padding)) + UnsignedDigits(radix, value)
  }

  lemma {:induction false} AsciiDigits(u: nat, b: nat, letbase: char)
    requires 2 <= b <= 16 && (letbase == 'a' || letbase == 'A')
    ensures IsAscii(Digits(u, b, letbase))
  {
    if u == 0 {
    } else {
      DivSmaller(u, b);
      AsciiDigits(u / b, b, letbase);
    }
  }

  lemma DigitsAreAscii(radix: Radix, value: nat)
    ensures IsAscii(UnsignedDigits(radix, value))
  {
    if value > 0 {
      if radix.Dec? {
        AsciiDigits(value, 10, 'a');
      } else {
        AsciiDigits(value, 16, if radix.uppercase then 'A' else 'a');
      }
    }
  }

  /** `ZyanAbsI64` */
  function AbsI64(x: int): (u: nat)
    requires -TWO_63 <= x < TWO_63
    ensures u == x || u == -x
    ensures u <= TWO_63
  {
    if x == -TWO_63 then TWO_63 else if x < 0 then -x else x
  }

  const PLUS: byte := 43
  const MINUS: byte := 45

  function Sign(value: int, forceSign: bool): seq<byte> {
    if value < 0 then [MINUS] else if forceSign then [PLUS] else []
  }

  /** What a signed append adds: the sign, the prefix, the digits of the absolute value, the suffix. */
  function SignedText(radix: Radix, value: int, padding: nat, forceSign: bool, prefix: View, suffix: View): seq<byte>
    requires -TWO_63 <= value < TWO_63
  {
    Sign(value, forceSign) + ViewText(prefix) + UnsignedPart(radix, AbsI64(value), padding, suffix)
  }

  /** The bytes of the digits. */
  function DigitBytes(radix: Radix, value: nat, padding: nat): seq<byte> {
    ToBytes(UnsignedText(radix, value, padding))
  }

  function UnsignedPart(radix: Radix, value: nat, padding: nat, suffix: View): seq<byte> {
    DigitBytes(radix, value, padding) + ViewText(suffix)
  }

  /** What is appended of sign, prefix and unsigned text when there is room for so many bytes. A negative number
      appends its prefix on its own, so that it may be left behind with the sign. */
  function KeptParts(room: int, negative: bool, sign: seq<byte>, prefix: seq<byte>, u: seq<byte>): (kept: seq<byte>)
    ensures |sign| + |prefix| + |u| <= room ==> kept == sign + prefix + u
    ensures room >= 0 ==> |kept| <= room
  {
    if |sign| > room then []
    else if |sign| + |prefix| + |u| <= room then sign + prefix + u
    else if negative && |sign| + |prefix| <= room then sign + prefix
    else sign
  }

  function SignedKept(room: int, radix: Radix, value: int, padding: nat, forceSign: bool, prefix: View, suffix: View)
    : seq<byte>
    requires -TWO_63 <= value < TWO_63
  {
    KeptParts(room, value < 0, Sign(value, forceSign), ViewText(prefix),
              UnsignedPart(radix, AbsI64(value), padding, suffix))
  }

  /** `ZydisStringAppendDecU` and `ZydisStringAppendHexU` by their documentation, for the digits of the number. */
  method AppendU(str: ZyanString, digits: seq<byte>, prefix: View, suffix: View,
                 ghost m0: seq<byte>, ghost size0: nat, ghost added: seq<byte>) returns (ok: bool)
    requires Strings.GrewBy(str, m0, size0, added)
    modifies str`size, str.mem
    ensures var text := ViewText(prefix) + (digits + ViewText(suffix));
      && (ok <==> old(str.size) + |text| <= str.capacity)
      && Strings.GrewBy(str, m0, size0, if ok then added + text else added)
  {
    ok := AppendPiece(str, ViewText(prefix) + (digits + ViewText(suffix)), m0, size0, added);
  }

  /** `ZydisStringAppend`, as one step of several. */
  method AppendPiece(str: ZyanString, piece: seq<byte>, ghost m0: seq<byte>, ghost size0: nat, ghost added: seq<byte>)
    returns (ok: bool)
    requires Strings.GrewBy(str, m0, size0, added)
    modifies str`size, str.mem
    ensures ok <==> old(str.size) + |piece| <= str.capacity
    ensures Strings.GrewBy(str, m0, size0, if ok then added + piece else added)
  {
    ghost var m1 := str.mem[..];
    ok := str.Append(piece);
    if ok {
      Strings.WroteOn(m0, str.data + size0 - 1, m1, added, str.mem[..], piece);
    }
  }

  /** `ZydisStringAppendShort` for a sign, as the first step of several. */
  method AppendSign(str: ZyanString, sign: byte) returns (ok: bool)
    requires str.Valid()
    modifies str`size, str.mem
    ensures ok <==> old(str.size) + 1 <= str.capacity
    ensures Strings.GrewBy(str, old(str.mem[..]), old(str.size), if ok then [sign] else [])
  {
    ghost var m := str.mem[..];
    ok := str.AppendShort([sign]);
    if !ok { Strings.StillTerminated(m, str.data + str.size - 1); }
  }

  /** `ZydisStringAppendDecS` and `ZydisStringAppendHexS`: the parts are appended one after another, up to the first
      that does not fit; success means that all of them fit. The text before, and all other memory, stays. */
  method AppendS(str: ZyanString, radix: Radix, value: int, padding: nat, forceSign: bool, prefix: View, suffix: View)
    returns (ok: bool, ghost kept: seq<byte>)
    requires str.Valid() && -TWO_63 <= value < TWO_63
    modifies str`size, str.mem
    ensures ok <==> old(str.size) + |SignedText(radix, value, padding, forceSign, prefix, suffix)| <= str.capacity
    ensures kept
         == SignedKept(str.capacity - old(str.size), radix, value, padding, forceSign, prefix, suffix)
    ensures ok ==> kept == SignedText(radix, value, padding, forceSign, prefix, suffix)
    ensures Strings.GrewBy(str, old(str.mem[..]), old(str.size), kept)
  {
    ghost var room := str.capacity - str.size;
    var digits := DigitBytes(radix, AbsI64(value), padding);
    ghost var sign, rest := Sign(value, forceSign), digits + ViewText(suffix);
    ok, kept := AppendParts(str, value < 0, digits, forceSign, prefix, suffix);
    PartsAreNumber(room, radix, value, padding, forceSign, prefix, suffix, sign, rest, ok, kept);
  }

  lemma PartsAreNumber(room: int, radix: Radix, value: int, padding: nat, forceSign: bool, prefix: View, suffix: View,
                       sign: seq<byte>, rest: seq<byte>, ok: bool, kept: seq<byte>)
    requires -TWO_63 <= value < TWO_63 && sign == Sign(value, forceSign)
    requires rest == DigitBytes(radix, AbsI64(value), padding) + ViewText(suffix)
    requires ok <==> |sign| + |ViewText(prefix)| + |rest| <= room
    requires kept == KeptParts(room, value < 0, sign, ViewText(prefix), rest)
    ensures ok <==> |SignedText(radix, value, padding, forceSign, prefix, suffix)| <= room
    ensures kept == SignedKept(room, radix, value, padding, forceSign, prefix, suffix)
    ensures ok ==> kept == SignedText(radix, value, padding, forceSign, prefix, suffix)
  {
  }

  /** The two branches, once the digits are known. */
  method AppendParts(str: ZyanString, negative: bool, digits: seq<byte>, forceSign: bool, prefix: View, suffix: View)
    returns (ok: bool, ghost kept: seq<byte>)
    requires str.Valid()
    modifies str`size, str.mem
    ensures var sign := if negative then [MINUS] else if forceSign then [PLUS] else [];
      && (ok <==> |sign| + |ViewText(prefix)| + |digits + ViewText(suffix)| <= str.capacity - old(str.size))
      && kept == KeptParts(str.capacity - old(str.size), negative, sign, ViewText(prefix), digits + ViewText(suffix))
    ensures Strings.GrewBy(str, old(str.mem[..]), old(str.size), kept)
  {
    if negative {
      ok, kept := AppendNegative(str, digits, prefix, suffix);
    } else {
      ok, kept := AppendNonNegative(str, digits, forceSign, prefix, suffix);
    }
  }

  /** The branch for negative numbers. */
  method AppendNegative(str: ZyanString, digits: seq<byte>, prefix: View, suffix: View)
    returns (ok: bool, ghost kept: seq<byte>)
    requires str.Valid()
    modifies str`size, str.mem
    ensures ok <==> 1 + |ViewText(prefix)| + |digits + ViewText(suffix)| <= str.capacity - old(str.size)
    ensures kept == KeptParts(str.capacity - old(str.size), true, [MINUS], ViewText(prefix), digits + ViewText(suffix))
    ensures Strings.GrewBy(str, old(str.mem[..]), old(str.size), kept)
  {
    ghost var m, size := str.mem[..], str.size;
    kept := [];
    ok := AppendSign(str, MINUS);
    if ok {
      kept := [MINUS];
      ok := AppendPrefix(str, prefix, m, size, kept);
      if ok {
        kept := kept + ViewText(prefix);
        ok := AppendU(str, digits, NoView, suffix, m, size, kept);
        assert ViewText(NoView) + (digits + ViewText(suffix)) == digits + ViewText(suffix);
        kept := if ok then kept + (digits + ViewText(suffix)) else kept;
      }
    }
  }

  /** The prefix, if there is one. */
  method AppendPrefix(str: ZyanString, prefix: View, ghost m0: seq<byte>, ghost size0: nat, ghost added: seq<byte>)
    returns (ok: bool)
    requires Strings.GrewBy(str, m0, size0, added)
    modifies str`size, str.mem
    ensures ok <==> old(str.size) + |ViewText(prefix)| <= str.capacity
    ensures Strings.GrewBy(str, m0, size0, if ok then added + ViewText(prefix) else added)
  {
    ok := true;
    assert added + [] == added;
    if prefix.View? {
      ok := AppendPiece(str, prefix.text, m0, size0, added);
    }
  }

  /** The branch for the others. */
  method AppendNonNegative(str: ZyanString, digits: seq<byte>, forceSign: bool, prefix: View, suffix: View)
    returns (ok: bool, ghost kept: seq<byte>)
    requires str.Valid()
    modifies str`size, str.mem
    ensures var sign := if forceSign then [PLUS] else [];
      && (ok <==> |sign| + |ViewText(prefix)| + |digits + ViewText(suffix)| <= str.capacity - old(str.size))
      && kept == KeptParts(str.capacity - old(str.size), false, sign, ViewText(prefix), digits + ViewText(suffix))
    ensures Strings.GrewBy(str, old(str.mem[..]), old(str.size), kept)
  {
    ghost var m, size := str.mem[..], str.size;
    ok, kept := AppendForcedSign(str, forceSign);
    if ok {
      ok := AppendU(str, digits, prefix, suffix, m, size, kept);
      assert kept + (ViewText(prefix) + (digits + ViewText(suffix)))
          == kept + ViewText(prefix) + (digits + ViewText(suffix));
      kept := if ok then kept + ViewText(prefix) + (digits + ViewText(suffix)) else kept;
    }
  }

  method AppendForcedSign(str: ZyanString, forceSign: bool) returns (ok: bool, ghost kept: seq<byte>)
    requires str.Valid()
    modifies str`size, str.mem
    ensures var sign := if forceSign then [PLUS] else [];
      (ok <==> |sign| <= str.capacity - old(str.size)) && kept == if ok then sign else []
    ensures Strings.GrewBy(str, old(str.mem[..]), old(str.size), kept)
  {
    ok, kept := true, [];
    if forceSign {
      ok := AppendSign(str, PLUS);
      kept := if ok then [PLUS] else [];
    } else {
      Strings.StillTerminated(str.mem[..], str.data + str.size - 1);
    }
  }

  // ---------- the text ----------

  lemma UnsignedDigitsAre(radix: Radix, value: nat)
    ensures IsNumeral(UnsignedDigits(radix, value), value, Base(radix), radix.Hex? && radix.uppercase)
  {
    if value == 0 {
      assert "0"[..0] == "";
      assert Value("0", Base(radix)) == Value("", Base(radix)) * Base(radix) + DigitValue('0');
    } else if radix.Dec? {
      DigitsAreNumeral(value, 10, 'a');
    } else {
      DigitsAreNumeral(value, 16, if radix.uppercase then 'A' else 'a');
    }
  }

  /** What a signed number looks like: '-' for a negative number, '+' for another one if it is forced, the prefix, the
      numeral of the absolute value with zeros up to the padding length, or one zero in front of a letter if that is
      forced, and the suffix. */
  lemma {:induction false} SignedTextIs(radix: Radix, value: int, padding: nat, forceSign: bool, prefix: View,
                                        suffix: View)
    returns (zeros: nat, digits: string)
    requires -TWO_63 <= value < TWO_63
    ensures IsNumeral(digits, if value < 0 then -value else value, if radix.Dec? then 10 else 16,
                      radix.Hex? && radix.uppercase)
    ensures zeros ==
      if |digits| < padding then padding - |digits|
      else if radix.Hex? && radix.forceLeading && !('0' <= digits[0] <= '9') then 1
      else 0
    ensures IsAscii(Repeat('0', zeros) + digits)
    ensures SignedText(radix, value, padding, forceSign, prefix, suffix) ==
      (if value < 0 then [45] else if forceSign then [43] else [])
      + ViewText(prefix) + (ToBytes(Repeat('0', zeros) + digits) + ViewText(suffix))
  {
    digits := UnsignedDigits(radix, AbsI64(value));
    zeros := Zeros(radix, AbsI64(value), padding);
    UnsignedDigitsAre(radix, AbsI64(value));
    DigitsAreAscii(radix, AbsI64(value));
  }

  /** Where a signed append may end: before anything, behind the sign, behind the prefix of a negative number, or behind
      the whole text. */
  predicate IsCut(cut: seq<byte>, negative: bool, sign: seq<byte>, prefix: seq<byte>, whole: seq<byte>) {
    cut == [] || cut == sign || (negative && cut == sign + prefix) || cut == whole
  }

  /** What is kept is the longest of these cuts for which there is room. */
  lemma {:induction false} KeptIsLongestCut(room: nat, radix: Radix, value: int, padding: nat, forceSign: bool,
                                            prefix: View, suffix: View)
    requires -TWO_63 <= value < TWO_63
    ensures var kept := SignedKept(room, radix, value, padding, forceSign, prefix, suffix);
      var sign := if value < 0 then [45] else if forceSign then [43] else [];
      var whole := SignedText(radix, value, padding, forceSign, prefix, suffix);
      && IsCut(kept, value < 0, sign, ViewText(prefix), whole) && |kept| <= room
      && forall cut | IsCut(cut, value < 0, sign, ViewText(prefix), whole) && |cut| <= room :: |cut| <= |kept|
  {
  }

  // ---------- reading back ----------

  /** A signed number between a known prefix and a suffix of known length: the reader sees a sign where the text starts
      with the sign and then the prefix. */
  function ReadSigned(t: seq<byte>, prefix: seq<byte>, suffix: nat, base: nat): int {
    if [MINUS] + prefix <= t then -(ReadMiddle(t[1..], |prefix|, suffix, base) as int)
    else ReadMiddle(if [PLUS] + prefix <= t then t[1..] else t, |prefix|, suffix, base)
  }

  /** The number between the prefix and the suffix. */
  function ReadMiddle(t: seq<byte>, prefix: nat, suffix: nat, base: nat): nat {
    if prefix + suffix > |t| then 0 else Value(ToChars(t[prefix..|t| - suffix]), base)
  }

  lemma UnsignedReads(radix: Radix, value: nat, padding: nat)
    ensures Value(UnsignedText(radix, value, padding), Base(radix)) == value
    ensures UnsignedText(radix, value, padding) != ""
    ensures var s := UnsignedText(radix, value, padding); s[0] != '+' && s[0] != '-'
  {
    var digits := UnsignedDigits(radix, value);
    LeftZeros(Zeros(radix, value, padding), digits, Base(radix));
    if value == 0 {
      assert "0"[..0] == "";
    } else {
      SomeDigits(radix, value);
    }
  }

  lemma SomeDigits(radix: Radix, value: nat)
    requires value > 0
    ensures var digits := UnsignedDigits(radix, value);
      Value(digits, Base(radix)) == value && Plain(digits) && digits != "" && '+' !in digits
  {
    if radix.Dec? {
      DigitsRead(value, 10, 'a');
      DigitsNoPlus(value, 10, 'a');
    } else {
      DigitsRead(value, 16, if radix.uppercase then 'A' else 'a');
      DigitsNoPlus(value, 16, if radix.uppercase then 'A' else 'a');
    }
  }

  lemma {:induction false} DigitsNoPlus(u: nat, b: nat, letbase: char)
    requires 2 <= b <= 16 && (letbase == 'a' || letbase == 'A')
    ensures '+' !in Digits(u, b, letbase)
  {
    if u == 0 {
    } else {
      DivSmaller(u, b);
      DigitsNoPlus(u / b, b, letbase);
    }
  }

  /** A successful signed append decodes to its value, the smallest 64-bit number included, for every prefix and suffix,
      also for prefixes that look like a sign themselves. */
  lemma {:induction false} SignedTextReads(radix: Radix, value: int, padding: nat, forceSign: bool,
                                           prefix: View, suffix: View)
    requires -TWO_63 <= value < TWO_63
    ensures ReadSigned(SignedText(radix, value, padding, forceSign, prefix, suffix),
                       ViewText(prefix), |ViewText(suffix)|, Base(radix)) == value
  {
    var s := UnsignedText(radix, AbsI64(value), padding);
    UnsignedReads(radix, AbsI64(value), padding);
    ReadParts(Sign(value, forceSign), ViewText(prefix), s, ViewText(suffix), Base(radix));
  }

  lemma {:induction false} ReadParts(sign: seq<byte>, prefix: seq<byte>, s: string, suffix: seq<byte>, base: nat)
    requires sign in {[], [PLUS], [MINUS]} && IsAscii(s) && s != "" && s[0] != '+' && s[0] != '-'
    ensures ReadSigned(sign + prefix + (ToBytes(s) + suffix), prefix, |suffix|, base)
      == if sign == [MINUS] then -(Value(s, base) as int) else Value(s, base)
  {
    var rest := prefix + (ToBytes(s) + suffix);
    MiddleReads(prefix, s, suffix, base);
    Split3(sign, prefix, ToBytes(s) + suffix);
    if sign == [] {
      assert [] + rest == rest;
      NoSignInFront(MINUS, prefix, ToBytes(s) + suffix);
      NoSignInFront(PLUS, prefix, ToBytes(s) + suffix);
    } else {
      assert sign + prefix <= sign + rest;
    }
  }

  /** A prefix followed by a digit does not start with a sign followed by the prefix. */
  lemma {:induction false} NoSignInFront(sign: byte, prefix: seq<byte>, digits: seq<byte>)
    requires digits != [] && digits[0] != sign
    ensures !([sign] + prefix <= prefix + digits)
  {
    if prefix == [] {
      assert prefix + digits == digits;
    } else if [sign] + prefix <= prefix + digits {
      assert prefix == [sign] + prefix[1..] by { assert (prefix + digits)[0] == ([sign] + prefix)[0]; }
      assert ([sign] + prefix)[1..] == prefix && (prefix + digits)[1..] == prefix[1..] + digits;
      NoSignInFront(sign, prefix[1..], digits);
    }
  }

  lemma MiddleReads(prefix: seq<byte>, s: string, suffix: seq<byte>, base: nat)
    requires IsAscii(s)
    ensures ReadMiddle(prefix + (ToBytes(s) + suffix), |prefix|, |suffix|, base) == Value(s, base)
  {
    MiddlePart(prefix, ToBytes(s), suffix);
    CharsOfBytes(s);
  }

  lemma CharsOfBytes(s: string)
    requires IsAscii(s)
    ensures ToChars(ToBytes(s)) == s
  {
    var t := ToChars(ToBytes(s));
    assert forall i | 0 <= i < |s| :: t[i] as int == s[i] as int;
  }

  lemma MiddlePart(a: seq<byte>, b: seq<byte>, c: seq<byte>)
    ensures var t := a + (b + c); |a| + |c| <= |t| && t[|a|..|t| - |c|] == b
  {
  }

  lemma Split3(sign: seq<byte>, a: seq<byte>, b: seq<byte>)
    ensures sign + a + b == sign + (a + b)
    ensures (sign + (a + b))[|sign|..] == a + b
  {
  }

  // ---------- no terminators ----------

  lemma DigitBytesAreText(radix: Radix, value: nat, padding: nat)
    ensures 0 !in DigitBytes(radix, value, padding)
  {
    var s := UnsignedText(radix, value, padding);
    if value > 0 { SomeDigits(radix, value); }
    assert forall i | 0 <= i < |s| :: s[i] != '\0';
  }

  /** Whatever is appended of a signed number holds no terminator, unless its prefix or suffix does. */
  lemma KeptIsText(room: int, radix: Radix, value: int, padding: nat, forceSign: bool, prefix: View, suffix: View)
    requires -TWO_63 <= value < TWO_63 && 0 !in ViewText(prefix) && 0 !in ViewText(suffix)
    ensures 0 !in SignedKept(room, radix, value, padding, forceSign, prefix, suffix)
  {
    DigitBytesAreText(radix, AbsI64(value), padding);
  }
}
