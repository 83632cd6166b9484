/** What the driver's print engine makes of a format: the specifications in it and the text it renders. */
module Format {
  import opened Numbers

  /** An argument slot: a machine word, or a pointer to a string. */
  datatype Arg = Word(w: nat) | Text(s: cstring) | NullText

  /** `*(int*)`: the low 32 bits, signed. */
  function AsInt(w: nat): (i: int)
    ensures -0x8000_0000 <= i < 0x8000_0000 && (w - i) % 0x1_0000_0000 == 0
  {
    var v := w % 0x1_0000_0000;
    if v >= 0x8000_0000 then v - 0x1_0000_0000 else v
  }

  /** `*(intptr_t*)`: the whole word, signed. */
  function AsIntPtr(w: nat): (i: int)
    ensures -TWO_63 <= i < TWO_63 && (w - i) % TWO_64 == 0
  {
    var v := w % TWO_64;
    if v >= TWO_63 then v - TWO_64 else v
  }

  /** `*(char*)` as a string: a NUL character makes the empty string. */
  function CharText(w: nat): cstring {
    var c := (w % 256) as char;
    if c == '\0' then "" else [c]
  }

  /** `*format`, with the terminator behind the last character. */
  function CharAt(f: cstring, i: nat): char
    requires i <= |f|
  {
    if i < |f| then f[i] else '\0'
  }

  function ZerosEnd(f: cstring, i: nat): (e: nat)
    requires i <= |f|
    ensures i <= e <= |f|
    decreases |f| - i
  {
    if CharAt(f, i) == '0' then ZerosEnd(f, i + 1) else i
  }

  predicate IsDigit(c: char) {
    '0' <= c <= '9'
  }

  function DigitsEnd(f: cstring, i: nat): (e: nat)
    requires i <= |f|
    ensures i <= e <= |f|
    ensures forall k | i <= k < e :: IsDigit(f[k])
    decreases |f| - i
  {
    if IsDigit(CharAt(f, i)) then DigitsEnd(f, i + 1) else i
  }

  /** The decimal number in f[i..e]. */
  function NumberIn(f: cstring, i: nat, e: nat): nat
    requires i <= e <= |f| && forall k | i <= k < e :: IsDigit(f[k])
  {
    if i == e then 0 else assert IsDigit(f[e - 1]); NumberIn(f, i, e - 1) * 10 + (f[e - 1] as int - '0' as int)
  }

  /** A conversion specification: its padding, its width, and the index of its conversion character. */
  datatype Spec = Spec(pad: Pad, width: nat, conv: nat)

  /** The specification whose '%' is just before index i. */
  function SpecAt(f: cstring, i: nat): (spec: Spec)
    requires i <= |f|
    ensures i <= spec.conv <= |f|
  {
    var j := if CharAt(f, i) == '-' then i + 1 else i;
    var k := ZerosEnd(f, j);
    var e := DigitsEnd(f, k);
    Spec(Pad(j > i, k > j), NumberIn(f, k, e), e)
  }

  predicate Consumes(conv: char) {
    conv in "sdxXupc"
  }

  /** The argument has the type that the conversion reads. */
  predicate Suits(conv: char, arg: Arg) {
    if conv == 's' then !arg.Word? else arg.Word?
  }

  /** The text of one conversion. */
  function FieldText(conv: char, width: nat, pad: Pad, arg: Arg): string
    requires Consumes(conv) && Suits(conv, arg)
  {
    if conv == 's' then Padded(if arg.Text? then arg.s else "(null)", width, pad)
    else if conv == 'd' then Number(AsInt(arg.w), 10, true, width, pad, 'a')
    else if conv == 'x' then Number(AsInt(arg.w), 16, false, width, pad, 'a')
    else if conv == 'X' then Number(AsInt(arg.w), 16, false, width, pad, 'A')
    else if conv == 'u' then Number(AsInt(arg.w), 10, false, width, pad, 'a')
    else if conv == 'p' then "0x" + Number(AsIntPtr(arg.w), 16, false, 16, Pad(false, true), 'A')
    else Padded(CharText(arg.w), width, pad)
  }

  /** The text printed and the arguments left; invalid if the interpreter would step past the terminator
      or read an argument that is not there or of another type. */
  datatype Result = Rendered(text: string, rest: seq<Arg>) | Invalid

  function Prepend(text: string, r: Result): Result {
    if r.Rendered? then Rendered(text + r.text, r.rest) else Invalid
  }

  /** What `print` writes for the format from index i on. */
  function Render(f: cstring, i: nat, args: seq<Arg>): Result
    requires i <= |f|
    decreases |f| - i
  {
    if i == |f| then Rendered("", args)
    else if f[i] != '%' then Prepend([f[i]], Render(f, i + 1, args))
    else if i + 1 == |f| then Rendered("", args)
    else if f[i + 1] == '%' then Prepend("%", Render(f, i + 2, args))
    else
      var spec := SpecAt(f, i + 1);
      if spec.conv == |f| then Invalid
      else if !Consumes(f[spec.conv]) then Render(f, spec.conv + 1, args)
      else if args == [] || !Suits(f[spec.conv], args[0]) then Invalid
      else Prepend(FieldText(f[spec.conv], spec.width, spec.pad, args[0]), Render(f, spec.conv + 1, args[1..]))
  }

  lemma PrependTwice(s: string, t: string, r: Result)
    ensures Prepend(s, Prepend(t, r)) == Prepend(s + t, r)
  {
    if r.Rendered? { assert s + (t + r.text) == s + t + r.text; }
  }
}
