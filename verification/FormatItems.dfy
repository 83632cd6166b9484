/** What formats mean, read off the way they are written: a format is a list of characters, percent signs and conversion
    specifications, and each of them shows its own text. */
module FormatItems {
  import opened Numbers
  import opened Format
  import opened FormatProofs

  // ---------- the text of a conversion ----------

  /** The text is the core, filled up to the width on one side. */
  predicate PaddedTo(text: string, core: string, width: int, right: bool, fill: char) {
    && |text| == (if |core| < width then width else |core|)
    && var gap := |text| - |core|;
       if right then text[..|core|] == core && forall i | |core| <= i < |text| :: text[i] == fill
       else text[gap..] == core && forall i | 0 <= i < gap :: text[i] == fill
  }

  /** The digits of v, with a minus sign in front of a negative number; zeros are filled in behind the sign. */
  predicate SignedField(text: string, v: int, digits: string, width: int, right: bool, zero: bool) {
    if v >= 0 then PaddedTo(text, digits, width, right, if zero then '0' else ' ')
    else if zero then text != "" && text[0] == '-' && PaddedTo(text[1..], digits, width - 1, right, '0')
    else PaddedTo(text, "-" + digits, width, right, ' ')
  }

  ghost predicate NumberField(text: string, v: int, b: nat, upper: bool, width: int, right: bool, zero: bool) {
    exists digits: string ::
      IsNumeral(digits, if v < 0 then -v else v, b, upper) && SignedField(text, v, digits, width, right, zero)
  }

  /** A 32-bit `int` that is widened to 64 bits and read as unsigned. */
  function WidenedInt(w: nat): nat {
    if AsInt(w) < 0 then AsInt(w) + TWO_64 else AsInt(w)
  }

  /** The text is what the conversion is to print for the argument. */
  ghost predicate Shows(text: string, conv: char, width: int, right: bool, zero: bool, arg: Arg)
    requires conv in "sdxXupc" && Suits(conv, arg)
  {
    match conv
    case 's' => PaddedTo(text, if arg.Text? then arg.s else "(null)", width, right, if zero then '0' else ' ')
    case 'c' =>
      var chars := if arg.w % 256 == 0 then "" else [(arg.w % 256) as char];
      PaddedTo(text, chars, width, right, if zero then '0' else ' ')
    case 'd' => NumberField(text, AsInt(arg.w), 10, false, width, right, zero)
    case 'u' => NumberField(text, WidenedInt(arg.w), 10, false, width, right, zero)
    case 'x' => NumberField(text, WidenedInt(arg.w), 16, false, width, right, zero)
    case 'X' => NumberField(text, WidenedInt(arg.w), 16, true, width, right, zero)
    case _ =>
      && |text| == 18 && text[..2] == "0x" && Value(text[2..], 16) == arg.w % TWO_64
      && forall i | 2 <= i < 18 :: IsHexDigit(text[i], true)
  }

  lemma {:induction false} PaddedIs(s: string, width: int, pad: Pad)
    ensures PaddedTo(Padded(s, width, pad), s, width, pad.right, if pad.zero then '0' else ' ')
  {
  }

  lemma {:induction false} PositiveIs(v: nat, body: string, width: int, pad: Pad)
    ensures SignedField(Padded(body, width, pad), v, body, width, pad.right, pad.zero)
  {
    PaddedIs(body, width, pad);
  }

  lemma {:induction false} NegativeIs(v: int, body: string, width: int, pad: Pad, text: string)
    requires v < 0 && width >= 0
    requires text ==
      if width != 0 && pad.zero then "-" + Padded(body, width - 1, pad) else Padded("-" + body, width, pad)
    ensures SignedField(text, v, body, width, pad.right, pad.zero)
  {
    PaddedIs(body, width - 1, pad);
    PaddedIs("-" + body, width, pad);
    if pad.zero { assert text[1..] == Padded(body, width - 1, pad); }
  }

  lemma {:induction false} NumberIs(i: int, b: nat, sg: bool, width: nat, pad: Pad, letbase: char)
    requires -TWO_63 <= i < TWO_63 && 2 <= b <= 16 && (letbase == 'a' || letbase == 'A')
    ensures NumberField(Number(i, b, sg, width, pad, letbase), Meaning(i, b, sg), b, letbase == 'A', width,
                        pad.right, pad.zero)
  {
    var body, v, text := Body(i, b, sg, letbase), Meaning(i, b, sg), Number(i, b, sg, width, pad, letbase);
    BodyIsNumeral(i, b, sg, letbase);
    if Negated(i, b, sg) {
      NegativeIs(v, body, width, pad, text);
    } else {
      PositiveIs(v, body, width, pad);
    }
    assert SignedField(text, v, body, width, pad.right, pad.zero);
  }

  lemma {:induction false} PointerIs(w: nat)
    ensures Shows("0x" + Number(AsIntPtr(w), 16, false, 16, Pad(false, true), 'A'), 'p', 0, false, false, Word(w))
  {
    var i, pad := AsIntPtr(w), Pad(false, true);
    var body, text := Body(i, 16, false, 'A'), Number(AsIntPtr(w), 16, false, 16, Pad(false, true), 'A');
    BodyIsNumeral(i, 16, false, 'A');
    FieldLength('p', 0, pad, Word(w));
    assert text == Repeat('0', 16 - |body|) + body;
    LeftZeros(16 - |body|, body, 16);
    assert AsUnsigned(i) == w % TWO_64;
    assert ("0x" + text)[2..] == text;
  }

  lemma {:induction false} NumberShows(conv: char, width: nat, pad: Pad, w: nat)
    requires conv == 'd' || conv == 'u' || conv == 'x' || conv == 'X'
    ensures Shows(FieldText(conv, width, pad, Word(w)), conv, width, pad.right, pad.zero, Word(w))
  {
    var b := if conv == 'd' || conv == 'u' then 10 else 16;
    NumberIs(AsInt(w), b, conv == 'd', width, pad, if conv == 'X' then 'A' else 'a');
  }

  /** Every conversion shows what it is to print. */
  lemma {:induction false} FieldShows(conv: char, width: nat, pad: Pad, arg: Arg)
    requires Consumes(conv) && Suits(conv, arg)
    ensures Shows(FieldText(conv, width, pad, arg), conv, width, pad.right, pad.zero, arg)
  {
    if conv == 's' {
      PaddedIs(if arg.Text? then arg.s else "(null)", width, pad);
    } else if conv == 'c' {
      PaddedIs(CharText(arg.w), width, pad);
    } else if conv == 'p' {
      PointerIs(arg.w);
    } else {
      NumberShows(conv, width, pad, arg.w);
    }
  }

  // ---------- formats as they are written ----------

  /** A character, "%%", or a conversion: an optional '-', zeros, the digits of the width, the conversion character. */
  datatype Item = Literal(c: char) | Percent | Conversion(right: bool, zeros: nat, width: string, conv: char)

  predicate WellFormed(it: Item) {
    match it
    case Literal(c) => c != '%' && c != '\0'
    case Percent => true
    case Conversion(right, zeros, width, conv) =>
      && (forall i | 0 <= i < |width| :: IsDigit(width[i])) && (width != "" ==> width[0] != '0')
      && !IsDigit(conv) && conv != '\0'
      && (conv == '%' || conv == '-' ==> right || zeros > 0 || width != "")
  }

  predicate AllWellFormed(items: seq<Item>) {
    forall it | it in items :: WellFormed(it)
  }

  function Spell(it: Item): (s: cstring)
    requires WellFormed(it)
  {
    match it
    case Literal(c) => [c]
    case Percent => "%%"
    case Conversion(right, zeros, width, conv) =>
      assert forall i | 0 <= i < |width| :: IsDigit(width[i]);
      (if right then "%-" else "%") + Repeat('0', zeros) + width + [conv]
  }

  function Unparse(items: seq<Item>): cstring
    requires AllWellFormed(items)
  {
    if items == [] then "" else Spell(items[0]) + Unparse(items[1..])
  }

  /** There is an argument of the right type for every conversion that takes one. */
  predicate Supplied(items: seq<Item>, args: seq<Arg>) {
    items != [] ==>
      if items[0].Conversion? && items[0].conv in "sdxXupc" then
        args != [] && Suits(items[0].conv, args[0]) && Supplied(items[1..], args[1..])
      else Supplied(items[1..], args)
  }

  /** The text shows the items one after another: characters and percent signs as they are, each known conversion with
      the next argument, and nothing for an unknown conversion; the other arguments are left. */
  ghost predicate ShowsAll(items: seq<Item>, args: seq<Arg>, text: string, rest: seq<Arg>)
    decreases |items|
  {
    if items == [] then text == "" && rest == args
    else
      match items[0]
      case Literal(c) => text != "" && text[0] == c && ShowsAll(items[1..], args, text[1..], rest)
      case Percent => text != "" && text[0] == '%' && ShowsAll(items[1..], args, text[1..], rest)
      case Conversion(right, zeros, width, conv) =>
        if conv !in "sdxXupc" then ShowsAll(items[1..], args, text, rest)
        else
          && args != [] && Suits(conv, args[0])
          && exists n | 0 <= n <= |text| ::
               && Shows(text[..n], conv, Value(width, 10), right, zeros > 0, args[0])
               && ShowsAll(items[1..], args[1..], text[n..], rest)
  }

  // ---------- reading a conversion ----------

  lemma {:induction false} ZerosEndIs(f: cstring, j: nat, k: nat)
    requires j <= k <= |f| && (forall i | j <= i < k :: f[i] == '0') && CharAt(f, k) != '0'
    ensures ZerosEnd(f, j) == k
    decreases k - j
  {
    if j < k { ZerosEndIs(f, j + 1, k); }
  }

  lemma {:induction false} DigitsEndIs(f: cstring, k: nat, e: nat)
    requires k <= e <= |f| && (forall i | k <= i < e :: IsDigit(f[i])) && !IsDigit(CharAt(f, e))
    ensures DigitsEnd(f, k) == e
    decreases e - k
  {
    if k < e { DigitsEndIs(f, k + 1, e); }
  }

  /** The width is the decimal number that is written. */
  lemma {:induction false} NumberInIs(f: cstring, k: nat, e: nat)
    requires k <= e <= |f| && forall i | k <= i < e :: IsDigit(f[i])
    ensures NumberIn(f, k, e) == Value(f[k..e], 10)
  {
    if k == e {
    } else {
      NumberInIs(f, k, e - 1);
      assert IsDigit(f[e - 1]) && f[k..e][..e - 1 - k] == f[k..e - 1];
    }
  }

  /** Where the parts of a conversion stand. */
  lemma {:induction false} PartsOf(it: Item, g: cstring, f: cstring, j: nat, k: nat, e: nat)
    requires WellFormed(it) && it.Conversion? && f == Spell(it) + g
    requires j == (if it.right then 2 else 1) && k == j + it.zeros && e == k + |it.width|
    ensures e + 1 == |Spell(it)| <= |f| && f[0] == '%' && (it.right ==> f[1] == '-') && f[e] == it.conv
    ensures (forall i | j <= i < k :: f[i] == '0') && f[k..e] == it.width && forall i | k <= i < e :: IsDigit(f[i])
  {
    assert forall i | j <= i < k :: f[i] == Repeat('0', it.zeros)[i - j];
    assert forall i | k <= i < e :: f[i] == it.width[i - k];
  }

  /** A conversion is read as it is written, whatever follows. */
  lemma {:induction false} SpecIs(it: Item, g: cstring, f: cstring)
    requires WellFormed(it) && it.Conversion? && f == Spell(it) + g
    ensures var n := |Spell(it)|;
      && 2 <= n <= |f| && f[0] == '%' && f[1] != '%' && f[n - 1] == it.conv
      && SpecAt(f, 1) == Spec(Pad(it.right, it.zeros > 0), Value(it.width, 10), n - 1)
  {
    var j := if it.right then 2 else 1;
    var k := j + it.zeros;
    var e := k + |it.width|;
    PartsOf(it, g, f, j, k, e);
    SpecFromParts(it, f, j, k, e);
  }

  lemma {:induction false} SpecFromParts(it: Item, f: cstring, j: nat, k: nat, e: nat)
    requires WellFormed(it) && it.Conversion?
    requires j == (if it.right then 2 else 1) && k == j + it.zeros && e == k + |it.width|
    requires e < |f| && f[0] == '%' && (it.right ==> f[1] == '-') && f[e] == it.conv
    requires (forall i | j <= i < k :: f[i] == '0') && f[k..e] == it.width && forall i | k <= i < e :: IsDigit(f[i])
    ensures f[1] != '%' && SpecAt(f, 1) == Spec(Pad(it.right, it.zeros > 0), Value(it.width, 10), e)
  {
    assert k < e ==> f[k] == f[k..e][0];
    ZerosEndIs(f, j, k);
    DigitsEndIs(f, k, e);
    NumberInIs(f, k, e);
  }

  // ---------- rendering a list of items ----------

  lemma TailWellFormed(items: seq<Item>)
    requires AllWellFormed(items) && items != []
    ensures WellFormed(items[0]) && AllWellFormed(items[1..])
  {
  }

  lemma CharShows(items: seq<Item>, args: seq<Arg>, c: char, r: Result)
    requires items != [] && items[0] == (if c == '%' then Percent else Literal(c))
    requires r.Rendered? ==> ShowsAll(items[1..], args, r.text, r.rest)
    ensures var r' := Prepend([c], r); r'.Rendered? ==> ShowsAll(items, args, r'.text, r'.rest)
  {
    if r.Rendered? { assert ([c] + r.text)[1..] == r.text; }
  }

  /** Format h starts with a character, or with "%%", and goes on from n like the other items. */
  lemma {:induction false} CharRenders(items: seq<Item>, args: seq<Arg>, h: cstring, n: nat, c: char)
    requires AllWellFormed(items) && items != [] && AllWellFormed(items[1..])
    requires items[0] == (if c == '%' then Percent else Literal(c))
    requires 1 <= n <= |h| && h[..n] == (if c == '%' then "%%" else [c]) && SameFrom(h, n, Unparse(items[1..]), 0)
    ensures var r := Render(h, 0, args);
      (r.Rendered? <==> Supplied(items, args)) && (r.Rendered? ==> ShowsAll(items, args, r.text, r.rest))
    decreases |items|, 0
  {
    FormatShows(items[1..], args);
    assert h[0] == h[..n][0] && (n == 2 ==> h[1] == h[..n][1]);
    assert Render(h, n, args) == Render(Unparse(items[1..]), 0, args);
    CharShows(items, args, c, Render(h, n, args));
  }

  lemma ConversionShows(items: seq<Item>, args: seq<Arg>, piece: string, r: Result)
    requires items != [] && items[0].Conversion? && items[0].conv in "sdxXupc"
    requires args != [] && Suits(items[0].conv, args[0])
    requires Shows(piece, items[0].conv, Value(items[0].width, 10), items[0].right, items[0].zeros > 0, args[0])
    requires r.Rendered? ==> ShowsAll(items[1..], args[1..], r.text, r.rest)
    ensures var r' := Prepend(piece, r); r'.Rendered? ==> ShowsAll(items, args, r'.text, r'.rest)
  {
    if r.Rendered? {
      var text, n := piece + r.text, |piece|;
      assert text[..n] == piece && text[n..] == r.text;
    }
  }

  /** Format h starts with the first item, whose last character stands at e, and goes on like the other items. */
  lemma {:induction false} ConversionRenders(items: seq<Item>, args: seq<Arg>, h: cstring, spec: Spec)
    requires AllWellFormed(items) && items != [] && AllWellFormed(items[1..]) && items[0].Conversion?
    requires |h| >= 2 && h[0] == '%' && h[1] != '%' && SpecAt(h, 1) == spec && spec.conv < |h|
    requires h[spec.conv] == items[0].conv && spec.width == Value(items[0].width, 10)
    requires spec.pad == Pad(items[0].right, items[0].zeros > 0)
    requires SameFrom(h, spec.conv + 1, Unparse(items[1..]), 0)
    ensures var r := Render(h, 0, args);
      (r.Rendered? <==> Supplied(items, args)) && (r.Rendered? ==> ShowsAll(items, args, r.text, r.rest))
    decreases |items|, 0
  {
    var it, g := items[0], Unparse(items[1..]);
    RenderAtSpec(h, 0, args, spec);
    if !Consumes(it.conv) {
      FormatShows(items[1..], args);
      assert Render(h, spec.conv + 1, args) == Render(g, 0, args);
    } else if args != [] && Suits(it.conv, args[0]) {
      FormatShows(items[1..], args[1..]);
      assert Render(h, spec.conv + 1, args[1..]) == Render(g, 0, args[1..]);
      FieldShows(it.conv, spec.width, spec.pad, args[0]);
      ConversionShows(items, args, FieldText(it.conv, spec.width, spec.pad, args[0]), Render(g, 0, args[1..]));
    }
  }

  lemma {:induction false} CharFirst(items: seq<Item>, args: seq<Arg>, u: cstring, g: cstring)
    requires AllWellFormed(items) && items != [] && !items[0].Conversion? && WellFormed(items[0])
    requires AllWellFormed(items[1..]) && u == Spell(items[0]) && g == Unparse(items[1..])
    ensures var r := Render(u + g, 0, args);
      (r.Rendered? <==> Supplied(items, args)) && (r.Rendered? ==> ShowsAll(items, args, r.text, r.rest))
    decreases |items|, 1
  {
    RenderShift(u, g, 0);
    assert (u + g)[..|u|] == u;
    CharRenders(items, args, u + g, |u|, if items[0].Literal? then items[0].c else '%');
  }

  lemma {:induction false} ConversionFirst(items: seq<Item>, args: seq<Arg>, u: cstring, g: cstring)
    requires AllWellFormed(items) && items != [] && items[0].Conversion? && WellFormed(items[0])
    requires AllWellFormed(items[1..]) && u == Spell(items[0]) && g == Unparse(items[1..])
    ensures var r := Render(u + g, 0, args);
      (r.Rendered? <==> Supplied(items, args)) && (r.Rendered? ==> ShowsAll(items, args, r.text, r.rest))
    decreases |items|, 1
  {
    RenderShift(u, g, 0);
    SpecIs(items[0], g, u + g);
    ConversionRenders(items, args, u + g, SpecAt(u + g, 1));
  }

  /** Rendering a format shows its items one after another, and succeeds exactly if the arguments suffice. */
  lemma {:induction false} FormatShows(items: seq<Item>, args: seq<Arg>)
    requires AllWellFormed(items)
    ensures var r := Render(Unparse(items), 0, args);
      (r.Rendered? <==> Supplied(items, args)) && (r.Rendered? ==> ShowsAll(items, args, r.text, r.rest))
    decreases |items|, 2
  {
    if items == [] {
    } else {
      TailWellFormed(items);
      if items[0].Conversion? {
        ConversionFirst(items, args, Spell(items[0]), Unparse(items[1..]));
      } else {
        CharFirst(items, args, Spell(items[0]), Unparse(items[1..]));
      }
    }
  }

  // ---------- every format is such a list ----------

  lemma {:induction false} ZerosEndStops(f: cstring, j: nat)
    requires j <= |f|
    ensures var k := ZerosEnd(f, j); CharAt(f, k) != '0' && f[j..k] == Repeat('0', k - j)
    decreases |f| - j
  {
    if CharAt(f, j) == '0' { ZerosEndStops(f, j + 1); }
  }

  lemma {:induction false} DigitsEndStops(f: cstring, k: nat)
    requires k <= |f|
    ensures !IsDigit(CharAt(f, DigitsEnd(f, k)))
    decreases |f| - k
  {
    if IsDigit(CharAt(f, k)) { DigitsEndStops(f, k + 1); }
  }

  /** The conversion whose '%' stands at i. */
  function ItemAt(f: cstring, i: nat): Item
    requires i + 1 < |f| && SpecAt(f, i + 1).conv < |f|
  {
    var j := if f[i + 1] == '-' then i + 2 else i + 1;
    var k := ZerosEnd(f, j);
    var e := DigitsEnd(f, k);
    Conversion(j > i + 1, k - j, f[k..e], f[e])
  }

  lemma FourParts(f: cstring, i: nat, j: nat, k: nat, e: nat)
    requires i <= j <= k <= e < |f|
    ensures f[i..e + 1] == f[i..j] + f[j..k] + f[k..e] + [f[e]]
  {
  }

  lemma {:induction false} ItemAtIsWellFormed(f: cstring, i: nat)
    requires i + 1 < |f| && f[i] == '%' && f[i + 1] != '%' && SpecAt(f, i + 1).conv < |f|
    ensures WellFormed(ItemAt(f, i))
  {
    var j := if f[i + 1] == '-' then i + 2 else i + 1;
    var k := ZerosEnd(f, j);
    ZerosEndStops(f, j);
    DigitsEndStops(f, k);
    assert k < DigitsEnd(f, k) ==> f[k..DigitsEnd(f, k)][0] == f[k];
  }

  lemma SpelledParts(it: Item, front: string, zeros: string)
    requires WellFormed(it) && it.Conversion?
    requires front == (if it.right then "%-" else "%") && zeros == Repeat('0', it.zeros)
    ensures Spell(it) == front + zeros + it.width + [it.conv]
  {
  }

  lemma {:induction false} ItemAtIsSpelled(f: cstring, i: nat)
    requires i + 1 < |f| && f[i] == '%' && SpecAt(f, i + 1).conv < |f| && WellFormed(ItemAt(f, i))
    ensures Spell(ItemAt(f, i)) == f[i..SpecAt(f, i + 1).conv + 1]
  {
    var j := if f[i + 1] == '-' then i + 2 else i + 1;
    var k := ZerosEnd(f, j);
    ZerosEndStops(f, j);
    var e := DigitsEnd(f, k);
    FourParts(f, i, j, k, e);
    assert f[i..j] == if j > i + 1 then "%-" else "%";
    SpelledParts(ItemAt(f, i), f[i..j], f[j..k]);
  }

  lemma SpelledChar(f: cstring, i: nat)
    requires i < |f|
    ensures f[i] != '%' ==> WellFormed(Literal(f[i])) && Spell(Literal(f[i])) == f[i..i + 1]
    ensures i + 1 < |f| && f[i] == '%' && f[i + 1] == '%' ==> Spell(Percent) == f[i..i + 2]
  {
  }

  /** Every format that ends neither inside a specification nor with a lone '%' is such a list of items. */
  lemma {:induction false} EveryFormatIsItems(f: cstring, i: nat) returns (items: seq<Item>)
    requires i <= |f| && Closed(f, i)
    ensures AllWellFormed(items) && Unparse(items) == f[i..]
    decreases |f| - i
  {
    if i == |f| {
      items := [];
    } else {
      var it, k;
      SpelledChar(f, i);
      if f[i] != '%' {
        it, k := Literal(f[i]), i + 1;
      } else if f[i + 1] == '%' {
        it, k := Percent, i + 2;
      } else {
        it, k := ItemAt(f, i), SpecAt(f, i + 1).conv + 1;
        ItemAtIsWellFormed(f, i);
        ItemAtIsSpelled(f, i);
      }
      items := EveryFormatIsItems(f, k);
      items := PutFirst(f, i, k, it, items);
    }
  }

  lemma {:induction false} PutFirst(f: cstring, i: nat, k: nat, it: Item, items: seq<Item>) returns (all: seq<Item>)
    requires i <= k <= |f| && WellFormed(it) && AllWellFormed(items) && Spell(it) == f[i..k] && Unparse(items) == f[k..]
    ensures AllWellFormed(all) && Unparse(all) == f[i..]
  {
    all := [it] + items;
    assert all[1..] == items;
    assert f[i..] == f[i..k] + f[k..];
  }
}
