/** What the print engine promises: field lengths, and that rendering goes piece by piece. */
module FormatProofs {
  import opened Numbers
  import opened Format

  // ---------- single fields ----------

  /** A field takes its width, or its natural length if that is longer; a pointer always takes 18 characters. */
  lemma FieldLength(conv: char, width: nat, pad: Pad, arg: Arg)
    requires Consumes(conv) && Suits(conv, arg)
    ensures conv == 'p' ==> |FieldText(conv, width, pad, arg)| == 18
    ensures conv != 'p' ==> var natural := |FieldText(conv, 0, Pad(false, false), arg)|;
      |FieldText(conv, width, pad, arg)| == if natural < width then width else natural
  {
    if conv == 'p' {
      var i := AsIntPtr(arg.w);
      NumberLength(i, 16, false, 16, Pad(false, true), 'A');
      if i != 0 { DigitsFitBuffer(AsUnsigned(i), 16, 'A'); }
    }
  }

  /** Any padding but zeros on the right. */
  predicate KeepsValue(pad: Pad) {
    !(pad.right && pad.zero)
  }

  /** A 32-bit number read as a signed `int` and widened to 64 bits. */
  function Widened(u: nat): nat {
    if u < 0x8000_0000 then u else u + (TWO_64 - 0x1_0000_0000)
  }

  /** `%d` prints the 32-bit argument; `%u`, `%x` and `%X` print it only below 2^31: the argument is read as a signed
      `int`, so larger ones come out as their value plus 2^64 - 2^32. */
  lemma {:induction false} UnsignedIsReadSigned(width: nat, pad: Pad, w: nat)
    requires KeepsValue(pad)
    ensures ReadNumber(FieldText('d', width, pad, Word(w)), 10) == AsInt(w)
    ensures ReadNumber(FieldText('u', width, pad, Word(w)), 10) == Widened(w % 0x1_0000_0000)
    ensures ReadNumber(FieldText('x', width, pad, Word(w)), 16) == Widened(w % 0x1_0000_0000)
    ensures ReadNumber(FieldText('X', width, pad, Word(w)), 16) == Widened(w % 0x1_0000_0000)
    ensures Widened(w % 0x1_0000_0000) == w % 0x1_0000_0000 <==> w % 0x1_0000_0000 < 0x8000_0000
  {
    NumberRoundTrip(AsInt(w), 10, true, width, pad, 'a');
    NumberRoundTrip(AsInt(w), 10, false, width, pad, 'a');
    NumberRoundTrip(AsInt(w), 16, false, width, pad, 'a');
    NumberRoundTrip(AsInt(w), 16, false, width, pad, 'A');
  }

  /** The first argument that goes wrong. */
  lemma UnsignedGoesWrong()
    ensures ReadNumber(FieldText('u', 0, Pad(false, false), Word(0x8000_0000)), 10) == 0xFFFF_FFFF_8000_0000
  {
    UnsignedIsReadSigned(0, Pad(false, false), 0x8000_0000);
  }

  lemma PaddedIsCString(s: cstring, width: int, pad: Pad)
    ensures '\0' !in Padded(s, width, pad)
  {
  }

  lemma NumberIsCString(i: int, b: nat, sg: bool, width: int, pad: Pad, letbase: char)
    requires -TWO_63 <= i < TWO_63 && (b == 10 || b == 16) && (letbase == 'a' || letbase == 'A')
    ensures '\0' !in Number(i, b, sg, width, pad, letbase)
  {
    BodyReads(i, b, sg, letbase);
    PaddedIsCString(Body(i, b, sg, letbase), width - 1, pad);
    PaddedIsCString(Natural(i, b, sg, letbase), width, pad);
  }

  lemma NoTerminatorInside(conv: char, width: nat, pad: Pad, arg: Arg)
    requires Consumes(conv) && Suits(conv, arg)
    ensures '\0' !in FieldText(conv, width, pad, arg)
  {
    if conv == 's' {
      PaddedIsCString(if arg.Text? then arg.s else "(null)", width, pad);
    } else if conv == 'p' {
      NumberIsCString(AsIntPtr(arg.w), 16, false, 16, Pad(false, true), 'A');
    } else if conv == 'c' {
      PaddedIsCString(CharText(arg.w), width, pad);
    } else {
      NumberIsCString(AsInt(arg.w), 10, true, width, pad, 'a');
      NumberIsCString(AsInt(arg.w), 16, false, width, pad, 'a');
      NumberIsCString(AsInt(arg.w), 16, false, width, pad, 'A');
      NumberIsCString(AsInt(arg.w), 10, false, width, pad, 'a');
    }
  }

  /** A rendering is a C string. */
  lemma {:induction false} RenderingIsCString(f: cstring, i: nat, args: seq<Arg>)
    requires i <= |f| && Render(f, i, args).Rendered?
    ensures '\0' !in Render(f, i, args).text
    decreases |f| - i
  {
    if i < |f| && f[i] != '%' {
      RenderingIsCString(f, i + 1, args);
    } else if i + 1 < |f| && f[i + 1] == '%' {
      RenderingIsCString(f, i + 2, args);
    } else if i + 1 < |f| {
      var spec := SpecAt(f, i + 1);
      if Consumes(f[spec.conv]) {
        RenderingIsCString(f, spec.conv + 1, args[1..]);
        NoTerminatorInside(f[spec.conv], spec.width, spec.pad, args[0]);
      } else {
        RenderingIsCString(f, spec.conv + 1, args);
      }
    }
  }

  // ---------- composition ----------

  /** The format from i on ends neither inside a specification nor with a lone '%'. */
  predicate Closed(f: cstring, i: nat)
    requires i <= |f|
    decreases |f| - i
  {
    if i == |f| then true
    else if f[i] != '%' then Closed(f, i + 1)
    else if i + 1 == |f| then false
    else if f[i + 1] == '%' then Closed(f, i + 2)
    else SpecAt(f, i + 1).conv < |f| && Closed(f, SpecAt(f, i + 1).conv + 1)
  }

  lemma {:induction false} ZerosEndAppend(f: cstring, g: cstring, i: nat)
    requires i <= |f| && ZerosEnd(f, i) < |f|
    ensures ZerosEnd(f + g, i) == ZerosEnd(f, i)
    decreases |f| - i
  {
    if CharAt(f, i) == '0' { ZerosEndAppend(f, g, i + 1); }
  }

  lemma {:induction false} DigitsEndAppend(f: cstring, g: cstring, i: nat)
    requires i <= |f| && DigitsEnd(f, i) < |f|
    ensures DigitsEnd(f + g, i) == DigitsEnd(f, i)
    decreases |f| - i
  {
    if IsDigit(CharAt(f, i)) { DigitsEndAppend(f, g, i + 1); }
  }

  lemma {:induction false} NumberInAppend(f: cstring, g: cstring, i: nat, e: nat)
    requires i <= e <= |f| && forall k | i <= k < e :: IsDigit(f[k])
    ensures (forall k | i <= k < e :: IsDigit((f + g)[k])) && NumberIn(f + g, i, e) == NumberIn(f, i, e)
  {
    if i < e { NumberInAppend(f, g, i, e - 1); }
  }

  /** A specification that ends within f is not changed by what follows f. */
  lemma SpecAppend(f: cstring, g: cstring, i: nat)
    requires i < |f| && SpecAt(f, i).conv < |f|
    ensures SpecAt(f + g, i) == SpecAt(f, i)
  {
    var j := if CharAt(f, i) == '-' then i + 1 else i;
    ZerosEndAppend(f, g, j);
    DigitsEndAppend(f, g, ZerosEnd(f, j));
    NumberInAppend(f, g, ZerosEnd(f, j), DigitsEnd(f, ZerosEnd(f, j)));
  }

  /** From n on, h is g. */
  predicate EndsWith(h: cstring, n: nat, g: cstring) {
    n <= |h| && h[n..] == g
  }

  lemma SameChar(h: cstring, n: nat, g: cstring, i: nat)
    requires EndsWith(h, n, g) && i <= |g|
    ensures n + i <= |h| && CharAt(h, n + i) == CharAt(g, i)
  {
    if i < |g| { assert h[n..][i] == h[n + i]; }
  }

  lemma {:induction false} ZerosEndShift(h: cstring, n: nat, g: cstring, i: nat)
    requires EndsWith(h, n, g) && i <= |g| && n + i <= |h|
    ensures ZerosEnd(h, n + i) == n + ZerosEnd(g, i)
    decreases |g| - i
  {
    SameChar(h, n, g, i);
    if CharAt(g, i) == '0' { ZerosEndShift(h, n, g, i + 1); }
  }

  lemma {:induction false} DigitsEndShift(h: cstring, n: nat, g: cstring, i: nat)
    requires EndsWith(h, n, g) && i <= |g| && n + i <= |h|
    ensures DigitsEnd(h, n + i) == n + DigitsEnd(g, i)
    decreases |g| - i
  {
    SameChar(h, n, g, i);
    if IsDigit(CharAt(g, i)) { DigitsEndShift(h, n, g, i + 1); }
  }

  lemma {:induction false} NumberInShift(h: cstring, n: nat, g: cstring, i: nat, e: nat)
    requires EndsWith(h, n, g) && i <= e <= |g| && n + e <= |h| && forall k | i <= k < e :: IsDigit(g[k])
    requires forall k | n + i <= k < n + e :: IsDigit(h[k])
    ensures NumberIn(h, n + i, n + e) == NumberIn(g, i, e)
  {
    if i < e {
      SameChar(h, n, g, e - 1);
      NumberInShift(h, n, g, i, e - 1);
    }
  }

  lemma SpecShift(h: cstring, n: nat, g: cstring, i: nat)
    requires EndsWith(h, n, g) && i < |g|
    ensures n + i <= |h|
    ensures var spec := SpecAt(g, i);
      && SpecAt(h, n + i) == Spec(spec.pad, spec.width, n + spec.conv)
      && (spec.conv < |g| ==> n + spec.conv < |h| && h[n + spec.conv] == g[spec.conv])
  {
    var j := if g[i] == '-' then i + 1 else i;
    var k := ZerosEnd(g, j);
    var e := DigitsEnd(g, k);
    SameChar(h, n, g, i);
    ZerosEndShift(h, n, g, j);
    DigitsEndShift(h, n, g, k);
    NumberInShift(h, n, g, k, e);
    SameChar(h, n, g, e);
    SameSpec(h, n, g, i, j, k, e);
  }

  /** Two specifications whose parts end at the same places. */
  lemma SameSpec(h: cstring, n: nat, g: cstring, i: nat, j: nat, k: nat, e: nat)
    requires i < |g| && n + i < |h| && h[n + i] == g[i] && j == if g[i] == '-' then i + 1 else i
    requires k == ZerosEnd(g, j) && j <= |g| && n + j <= |h| && ZerosEnd(h, n + j) == n + k
    requires e == DigitsEnd(g, k) && DigitsEnd(h, n + k) == n + e && NumberIn(h, n + k, n + e) == NumberIn(g, k, e)
    ensures SpecAt(g, i) == Spec(Pad(j > i, k > j), NumberIn(g, k, e), e)
    ensures SpecAt(h, n + i) == Spec(Pad(j > i, k > j), NumberIn(g, k, e), n + e)
  {
  }

  lemma RenderAtSpec(f: cstring, i: nat, args: seq<Arg>, spec: Spec)
    requires i + 1 < |f| && f[i] == '%' && f[i + 1] != '%' && spec == SpecAt(f, i + 1)
    ensures Render(f, i, args) ==
      if spec.conv == |f| then Invalid
      else if !Consumes(f[spec.conv]) then Render(f, spec.conv + 1, args)
      else if args == [] || !Suits(f[spec.conv], args[0]) then Invalid
      else Prepend(FieldText(f[spec.conv], spec.width, spec.pad, args[0]), Render(f, spec.conv + 1, args[1..]))
  {
  }

  /** Format h from m on renders like format g from i on. */
  ghost predicate SameFrom(h: cstring, m: nat, g: cstring, i: nat)
    requires m <= |h| && i <= |g|
  {
    forall args: seq<Arg> :: Render(h, m, args) == Render(g, i, args)
  }

  /** What stands before a format does not matter for rendering it. */
  lemma {:induction false} RenderShift(f: cstring, g: cstring, i: nat)
    requires i <= |g|
    ensures SameFrom(f + g, |f| + i, g, i)
    decreases |g| - i
  {
    if i == |g| || g[i] != '%' || i + 1 == |g| || g[i + 1] == '%' {
      if i < |g| && g[i] != '%' {
        RenderShift(f, g, i + 1);
      } else if i + 1 < |g| {
        RenderShift(f, g, i + 2);
      }
      SameFromPlain(f + g, |f| + i, g, i);
    } else {
      RenderShiftSpec(f, g, i);
    }
  }

  lemma {:induction false} RenderShiftSpec(f: cstring, g: cstring, i: nat)
    requires i + 1 < |g| && g[i] == '%' && g[i + 1] != '%'
    ensures SameFrom(f + g, |f| + i, g, i)
    decreases |g| - i, 0
  {
    var spec := SpecAt(g, i + 1);
    assert (f + g)[|f|..] == g;
    SpecShift(f + g, |f|, g, i + 1);
    if spec.conv < |g| {
      RenderShift(f, g, spec.conv + 1);
    }
    SameFromSpec(f + g, |f| + i, Spec(spec.pad, spec.width, |f| + spec.conv), g, i, spec);
  }

  /** Two formats that agree on a character that starts no specification, and on what follows it. */
  lemma SameFromPlain(h: cstring, m: nat, g: cstring, i: nat)
    requires i <= |g| && m <= |h| && h[m..] == g[i..]
    requires i + 1 < |g| && g[i] == '%' ==> g[i + 1] == '%' && SameFrom(h, m + 2, g, i + 2)
    requires i < |g| && g[i] != '%' ==> SameFrom(h, m + 1, g, i + 1)
    ensures SameFrom(h, m, g, i)
  {
    assert |h| - m == |g| - i;
    assert forall k | 0 <= k < |g| - i :: h[m..][k] == g[i..][k];
  }

  /** Two formats that agree on a specification and on what follows it. */
  lemma SameFromSpec(h: cstring, m: nat, spec': Spec, g: cstring, i: nat, spec: Spec)
    requires i + 1 < |g| && g[i] == '%' && g[i + 1] != '%' && spec == SpecAt(g, i + 1)
    requires m + 1 < |h| && h[m] == '%' && h[m + 1] != '%' && spec' == SpecAt(h, m + 1)
    requires spec.pad == spec'.pad && spec.width == spec'.width
    requires spec'.conv < |h| <==> spec.conv < |g|
    requires spec.conv < |g| ==> h[spec'.conv] == g[spec.conv] && SameFrom(h, spec'.conv + 1, g, spec.conv + 1)
    ensures SameFrom(h, m, g, i)
  {
    forall args: seq<Arg> ensures Render(h, m, args) == Render(g, i, args) {
      RenderAtSpec(g, i, args, spec);
      RenderAtSpec(h, m, args, spec');
    }
  }

  /** Rendering f and then, with the arguments left and more, what follows it. */
  lemma {:induction false} RenderAppend(f: cstring, g: cstring, i: nat, args: seq<Arg>, more: seq<Arg>)
    requires i <= |f| && Closed(f, i) && Render(f, i, args).Rendered?
    ensures var r := Render(f, i, args);
      Render(f + g, i, args + more) == Prepend(r.text, Render(f + g, |f|, r.rest + more))
    decreases |f| - i
  {
    var r := Render(f, i, args);
    var later := Render(f + g, |f|, r.rest + more);
    if i == |f| {
      PrependNothing(later);
    } else if f[i] != '%' {
      RenderAppend(f, g, i + 1, args, more);
      PrependTwice([f[i]], Render(f, i + 1, args).text, later);
    } else if f[i + 1] == '%' {
      RenderAppend(f, g, i + 2, args, more);
      PrependTwice("%", Render(f, i + 2, args).text, later);
    } else {
      RenderAppendSpec(f, g, i, args, more);
    }
  }

  lemma PrependNothing(r: Result)
    ensures Prepend("", r) == r
  {
    if r.Rendered? { assert "" + r.text == r.text; }
  }

  lemma {:induction false} RenderAppendSpec(f: cstring, g: cstring, i: nat, args: seq<Arg>, more: seq<Arg>)
    requires i + 1 < |f| && f[i] == '%' && f[i + 1] != '%' && Closed(f, i) && Render(f, i, args).Rendered?
    ensures var r := Render(f, i, args);
      Render(f + g, i, args + more) == Prepend(r.text, Render(f + g, |f|, r.rest + more))
    decreases |f| - i, 0
  {
    var spec := SpecAt(f, i + 1);
    SpecAppend(f, g, i + 1);
    RenderAtSpec(f, i, args, spec);
    RenderAtSpec(f + g, i, args + more, spec);
    var later := Render(f + g, |f|, Render(f, i, args).rest + more);
    if !Consumes(f[spec.conv]) {
      RenderAppend(f, g, spec.conv + 1, args, more);
    } else {
      assert (args + more)[1..] == args[1..] + more && (args + more)[0] == args[0];
      RenderAppend(f, g, spec.conv + 1, args[1..], more);
      PrependTwice(FieldText(f[spec.conv], spec.width, spec.pad, args[0]),
                   Render(f, spec.conv + 1, args[1..]).text, later);
    }
  }

  /** Rendering f followed by g is rendering f and then g with the arguments that f left. */
  ghost predicate Composes(f: cstring, args: seq<Arg>, g: cstring, more: seq<Arg>)
    requires Render(f, 0, args).Rendered?
  {
    Render(f + g, 0, args + more) == Prepend(Render(f, 0, args).text, Render(g, 0, Render(f, 0, args).rest + more))
  }

  lemma ClosedFormatsCompose(f: cstring, args: seq<Arg>, g: cstring, more: seq<Arg>)
    requires Render(f, 0, args).Rendered? && Closed(f, 0)
    ensures Composes(f, args, g, more)
  {
    RenderAppend(f, g, 0, args, more);
    RenderShift(f, g, 0);
  }

  /** A format that ends with a lone '%' prints a '%' once another '%' follows. */
  lemma {:induction false} OpenFormatEatsPercent(f: cstring, i: nat, args: seq<Arg>)
    requires i <= |f| && Render(f, i, args).Rendered? && !Closed(f, i)
    ensures var r := Render(f, i, args); Render(f + "%", i, args) == Rendered(r.text + "%", r.rest)
    decreases |f| - i
  {
    var g := "%";
    if i + 1 == |f| && f[i] == '%' {
      assert Render(f + g, i + 2, args) == Rendered("", args);
      assert "" + "%" == "%" + "" == "%";
    } else if f[i] != '%' {
      OpenFormatEatsPercent(f, i + 1, args);
      PercentAtTheEnd([f[i]], Render(f, i + 1, args));
    } else if f[i + 1] == '%' {
      OpenFormatEatsPercent(f, i + 2, args);
      PercentAtTheEnd("%", Render(f, i + 2, args));
    } else {
      OpenSpecEatsPercent(f, i, args);
    }
  }

  lemma {:induction false} OpenSpecEatsPercent(f: cstring, i: nat, args: seq<Arg>)
    requires i + 1 < |f| && f[i] == '%' && f[i + 1] != '%' && Render(f, i, args).Rendered? && !Closed(f, i)
    ensures var r := Render(f, i, args); Render(f + "%", i, args) == Rendered(r.text + "%", r.rest)
    decreases |f| - i, 0
  {
    var g := "%";
    var spec := SpecAt(f, i + 1);
    SpecAppend(f, g, i + 1);
    RenderAtSpec(f, i, args, spec);
    RenderAtSpec(f + g, i, args, spec);
    if !Consumes(f[spec.conv]) {
      OpenFormatEatsPercent(f, spec.conv + 1, args);
    } else {
      OpenFormatEatsPercent(f, spec.conv + 1, args[1..]);
      PercentAtTheEnd(FieldText(f[spec.conv], spec.width, spec.pad, args[0]), Render(f, spec.conv + 1, args[1..]));
    }
  }

  lemma PercentAtTheEnd(field: string, r: Result)
    requires r.Rendered?
    ensures Prepend(field, Rendered(r.text + "%", r.rest)) == Rendered(Prepend(field, r).text + "%", r.rest)
  {
    assert field + (r.text + "%") == field + r.text + "%";
  }

  lemma LonePercent(args: seq<Arg>)
    ensures Render("%", 0, args) == Rendered("", args)
  {
  }

  /** Rendering is compositional, for every continuation, exactly for formats that do not end with a lone '%'. */
  lemma RenderingIsCompositional(f: cstring, args: seq<Arg>)
    requires Render(f, 0, args).Rendered?
    ensures (forall g: cstring, more: seq<Arg> :: Composes(f, args, g, more)) <==> Closed(f, 0)
  {
    if Closed(f, 0) {
      forall g: cstring, more: seq<Arg> ensures Composes(f, args, g, more) {
        ClosedFormatsCompose(f, args, g, more);
      }
    } else {
      OpenFormatEatsPercent(f, 0, args);
      var g: cstring := "%";
      assert args + [] == args;
      var r := Render(f, 0, args);
      LonePercent(r.rest + []);
      assert |Prepend(r.text, Rendered("", r.rest + [])).text| == |r.text|;
      assert |Render(f + g, 0, args + []).text| == |r.text| + 1;
      assert !Composes(f, args, g, []);
    }
  }
}
