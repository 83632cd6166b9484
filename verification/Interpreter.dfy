/** The format interpreter of the driver's print engine, `print`. */
module Interpreter {
  import opened Format
  import opened FormatItems
  import opened Memory
  import opened Numbers
  import opened Printing

  // ---------- parsing and printing one specification ----------

  /** The flag and width loops of `print`. */
  method ParseSpec(f: cstring, i: nat) returns (spec: Spec)
    requires i <= |f|
    ensures spec == SpecAt(f, i)
  {
    var p := i;
    var right, zero := false, false;
    if CharAt(f, p) == '-' {
      p := p + 1;
      right := true;
    }
    ghost var j := p;
    while CharAt(f, p) == '0'
      invariant j <= p <= |f| && ZerosEnd(f, p) == ZerosEnd(f, j) && zero == (p > j)
      decreases |f| - p
    {
      p := p + 1;
      zero := true;
    }
    ghost var k := p;
    var width := 0;
    while IsDigit(CharAt(f, p))
      invariant k <= p <= |f| && DigitsEnd(f, p) == DigitsEnd(f, k)
      invariant (forall d | k <= d < p :: IsDigit(f[d])) && width == NumberIn(f, k, p)
      decreases |f| - p
    {
      width := width * 10;
      width := width + (CharAt(f, p) as int - '0' as int);
      p := p + 1;
    }
    return Spec(Pad(right, zero), width, p);
  }

  /** One conversion: what ends up in the buffer is what the conversion is to show. */
  method PrintField(out: Cursor, conv: char, width: nat, pad: Pad, arg: Arg) returns (pc: nat)
    requires Consumes(conv) && Suits(conv, arg)
    requires out.pos + |FieldText(conv, width, pad, arg)| <= out.buf.Length
    modifies out`pos, out.buf
    ensures pc == |FieldText(conv, width, pad, arg)| && out.pos == old(out.pos) + pc
    ensures Wrote(old(out.buf[..]), old(out.pos), out.buf[..], FieldText(conv, width, pad, arg))
    ensures Shows(out.buf[old(out.pos)..out.pos], conv, width, pad.right, pad.zero, arg)
  {
    if conv == 's' {
      pc := out.Prints(if arg.Text? then arg.s else "(null)", width, pad);
    } else if conv == 'd' {
      pc := Printi(out, AsInt(arg.w), 10, true, width, pad, 'a');
    } else if conv == 'x' {
      pc := Printi(out, AsInt(arg.w), 16, false, width, pad, 'a');
    } else if conv == 'X' {
      pc := Printi(out, AsInt(arg.w), 16, false, width, pad, 'A');
    } else if conv == 'u' {
      pc := Printi(out, AsInt(arg.w), 10, false, width, pad, 'a');
    } else if conv == 'p' {
      pc := PrintPointer(out, arg.w);
    } else {
      pc := out.Prints(CharText(arg.w), width, pad);
    }
    WrittenShows(old(out.buf[..]), old(out.pos), out.buf[..], conv, width, pad, arg);
    assert out.buf[..][old(out.pos)..out.pos] == out.buf[old(out.pos)..out.pos];
  }

  lemma WrittenShows(m: seq<char>, p: nat, m': seq<char>, conv: char, width: nat, pad: Pad, arg: Arg)
    requires Consumes(conv) && Suits(conv, arg) && Wrote(m, p, m', FieldText(conv, width, pad, arg))
    ensures Shows(m'[p..p + |FieldText(conv, width, pad, arg)|], conv, width, pad.right, pad.zero, arg)
  {
    FieldShows(conv, width, pad, arg);
    WrittenText(m, p, m', FieldText(conv, width, pad, arg));
  }

  method PrintPointer(out: Cursor, w: nat) returns (pc: nat)
    requires out.pos + 2 + |Number(AsIntPtr(w), 16, false, 16, Pad(false, true), 'A')| <= out.buf.Length
    modifies out`pos, out.buf
    ensures var text := "0x" + Number(AsIntPtr(w), 16, false, 16, Pad(false, true), 'A');
      && pc == |text| && out.pos == old(out.pos) + pc
      && Wrote(old(out.buf[..]), old(out.pos), out.buf[..], text)
  {
    ghost var m0, p0 := out.buf[..], out.pos;
    out.PrintChar('0');
    ghost var m1 := out.buf[..];
    out.PrintChar('x');
    ghost var m2 := out.buf[..];
    WroteMore(m0, p0, m1, "0", m2, "x");
    assert "0" + "x" == "0x";
    pc := Printi(out, AsIntPtr(w), 16, false, 16, Pad(false, true), 'A');
    WroteMore(m0, p0, m2, "0x", out.buf[..], Number(AsIntPtr(w), 16, false, 16, Pad(false, true), 'A'));
    pc := 2 + pc;
  }

  // ---------- the interpreter ----------

  /** Between two turns of the loop: `done` has been printed, and the format from i with the arguments from k
      on is still to do. */
  ghost predicate Midway(f: cstring, args: seq<Arg>, done: string, i: nat, k: nat) {
    && i <= |f| && k <= |args|
    && Render(f, 0, args).Rendered?
    && Render(f, 0, args) == Prepend(done, Render(f, i, args[k..]))
  }

  /** One turn: `piece` is printed, and the loop goes on at i' with the arguments from k' on. */
  ghost predicate Turn(f: cstring, args: seq<Arg>, i: nat, k: nat, piece: string, i': nat, k': nat) {
    && i < i' <= |f| && k <= k' <= |args|
    && Render(f, i, args[k..]) == Prepend(piece, Render(f, i', args[k'..]))
  }

  lemma TurnKeepsMidway(f: cstring, args: seq<Arg>, done: string, i: nat, k: nat, piece: string, i': nat, k': nat)
    requires Midway(f, args, done, i, k) && Turn(f, args, i, k, piece, i', k')
    ensures Midway(f, args, done + piece, i', k')
    ensures |done| + |piece| <= |Render(f, 0, args).text|
  {
    PrependTwice(done, piece, Render(f, i', args[k'..]));
  }

  lemma TurnAtPlain(f: cstring, args: seq<Arg>, i: nat, k: nat)
    requires i < |f| && k <= |args|
    ensures f[i] != '%' ==> Turn(f, args, i, k, [f[i]], i + 1, k)
    ensures f[i] == '%' && i + 1 == |f| ==> Turn(f, args, i, k, "", i + 1, k)
    ensures f[i] == '%' && i + 1 < |f| && f[i + 1] == '%' ==> Turn(f, args, i, k, "%", i + 2, k)
  {
  }

  lemma TurnAtSpec(f: cstring, args: seq<Arg>, i: nat, k: nat)
    requires i + 1 < |f| && f[i] == '%' && f[i + 1] != '%' && k <= |args|
    requires Render(f, i, args[k..]).Rendered?
    ensures var spec := SpecAt(f, i + 1);
      && spec.conv < |f|
      && (!Consumes(f[spec.conv]) ==> Turn(f, args, i, k, "", spec.conv + 1, k))
      && (Consumes(f[spec.conv]) ==>
            && k < |args| && Suits(f[spec.conv], args[k])
            && Turn(f, args, i, k, FieldText(f[spec.conv], spec.width, spec.pad, args[k]), spec.conv + 1, k + 1))
  {
    var spec := SpecAt(f, i + 1);
    var rest := Render(f, spec.conv + 1, args[k..]);
    if !Consumes(f[spec.conv]) {
      assert "" + rest.text == rest.text;
    } else {
      assert args[k..][1..] == args[k + 1..];
    }
  }

  /** A known conversion takes the next argument. */
  method PrintArgument(out: Cursor, conv: char, spec: Spec, args: seq<Arg>, k: nat) returns (pc: nat, k': nat)
    requires k < |args| && Consumes(conv) && Suits(conv, args[k])
    requires out.pos + |FieldText(conv, spec.width, spec.pad, args[k])| <= out.buf.Length
    modifies out`pos, out.buf
    ensures k' == k + 1
    ensures var piece := FieldText(conv, spec.width, spec.pad, args[k]);
      && pc == |piece| && out.pos == old(out.pos) + pc
      && Wrote(old(out.buf[..]), old(out.pos), out.buf[..], piece)
  {
    pc := PrintField(out, conv, spec.width, spec.pad, args[k]);
    k' := k + 1;
  }

  /** One turn of the loop of `print`, at a specification: known conversions print a field, others nothing. */
  method PrintSpec(out: Cursor, f: cstring, args: seq<Arg>, i: nat, k: nat, ghost done: string)
    returns (n: nat, i': nat, k': nat, ghost piece: string)
    requires Midway(f, args, done, i, k) && i + 1 < |f| && f[i] == '%' && f[i + 1] != '%'
    requires out.pos + |Render(f, 0, args).text| - |done| < out.buf.Length
    modifies out`pos, out.buf
    ensures Turn(f, args, i, k, piece, i', k')
    ensures n == |piece| && out.pos == old(out.pos) + n
    ensures Wrote(old(out.buf[..]), old(out.pos), out.buf[..], piece)
  {
    TurnAtSpec(f, args, i, k);
    var spec := ParseSpec(f, i + 1);
    i' := spec.conv;
    if Consumes(f[i']) {
      piece := FieldText(f[i'], spec.width, spec.pad, args[k]);
      TurnKeepsMidway(f, args, done, i, k, piece, i' + 1, k + 1);
      n, k' := PrintArgument(out, f[i'], spec, args, k);
      return n, i' + 1, k', piece;
    }
    WroteNothing(out.buf[..], out.pos);
    return 0, i' + 1, k, "";
  }

  /** One turn of the loop of `print`, at a character that is not the terminator. */
  method PrintItem(out: Cursor, f: cstring, args: seq<Arg>, i: nat, k: nat, ghost done: string)
    returns (n: nat, i': nat, k': nat, ghost piece: string)
    requires Midway(f, args, done, i, k) && i < |f|
    requires out.pos + |Render(f, 0, args).text| - |done| < out.buf.Length
    modifies out`pos, out.buf
    ensures Turn(f, args, i, k, piece, i', k')
    ensures n == |piece| && out.pos == old(out.pos) + n
    ensures Wrote(old(out.buf[..]), old(out.pos), out.buf[..], piece)
  {
    TurnAtPlain(f, args, i, k);
    i' := i;
    if f[i'] == '%' {
      i' := i' + 1;
      if CharAt(f, i') == '\0' {
        WroteNothing(out.buf[..], out.pos);
        return 0, i', k, "";
      }
      if f[i'] != '%' {
        n, i', k', piece := PrintSpec(out, f, args, i, k, done);
        return;
      }
    }
    piece := [f[i']];
    TurnKeepsMidway(f, args, done, i, k, piece, i' + 1, k);
    out.PrintChar(f[i']);
    return 1, i' + 1, k, piece;
  }

  /** The loop of `print`. */
  method PrintItems(out: Cursor, f: cstring, args: seq<Arg>) returns (pc: nat)
    requires Render(f, 0, args).Rendered?
    requires out.pos + |Render(f, 0, args).text| < out.buf.Length
    modifies out`pos, out.buf
    ensures pc == |Render(f, 0, args).text| && out.pos == old(out.pos) + pc
    ensures Wrote(old(out.buf[..]), old(out.pos), out.buf[..], Render(f, 0, args).text)
  {
    pc := 0;
    var i, k := 0, 0;
    ghost var done := "";
    WroteNothing(out.buf[..], out.pos);
    MidwayAtStart(f, args);
    while CharAt(f, i) != '\0'
      invariant Midway(f, args, done, i, k)
      invariant Wrote(old(out.buf[..]), old(out.pos), out.buf[..], done)
      invariant pc == |done| && out.pos == old(out.pos) + pc
      decreases |f| - i
    {
      ghost var m, i0, k0 := out.buf[..], i, k;
      var n;
      ghost var piece;
      n, i, k, piece := PrintItem(out, f, args, i, k, done);
      TurnKeepsMidway(f, args, done, i0, k0, piece, i, k);
      WroteMore(old(out.buf[..]), old(out.pos), m, done, out.buf[..], piece);
      pc := pc + n;
      done := done + piece;
    }
    assert Render(f, 0, args).text == done + "" == done;
  }

  /** However the format is written as a list of items, its rendering shows them. */
  lemma RenderingShows(f: cstring, args: seq<Arg>)
    requires Render(f, 0, args).Rendered?
    ensures var r := Render(f, 0, args);
      forall items: seq<Item> | AllWellFormed(items) && Unparse(items) == f :: ShowsAll(items, args, r.text, r.rest)
  {
    var r := Render(f, 0, args);
    forall items: seq<Item> | AllWellFormed(items) && Unparse(items) == f
      ensures ShowsAll(items, args, r.text, r.rest)
    {
      FormatShows(items, args);
    }
  }

  /** `print`: writes the rendering and a terminator, and returns the length of the rendering. In the buffer then stands
      a text that shows the items of the format one after another. */
  method Print(out: Cursor, f: cstring, args: seq<Arg>) returns (pc: nat)
    requires Render(f, 0, args).Rendered?
    requires out.pos + |Render(f, 0, args).text| < out.buf.Length
    modifies out`pos, out.buf
    ensures pc == |Render(f, 0, args).text| && out.pos == old(out.pos) + pc
    ensures Wrote(old(out.buf[..]), old(out.pos), out.buf[..], Render(f, 0, args).text + ['\0'])
    ensures var rest := Render(f, 0, args).rest;
      forall items: seq<Item> | AllWellFormed(items) && Unparse(items) == f ::
        ShowsAll(items, args, out.buf[old(out.pos)..out.pos], rest)
  {
    ghost var m0, p0, text := out.buf[..], out.pos, Render(f, 0, args).text;
    pc := PrintItems(out, f, args);
    ghost var m := out.buf[..];
    out.Terminate();
    WroteMore(m0, p0, m, text, out.buf[..], ['\0']);
    WrittenText(m0, p0, m, text);
    assert out.buf[p0..out.pos] == m[p0..out.pos];
    RenderingShows(f, args);
  }

  lemma MidwayAtStart(f: cstring, args: seq<Arg>)
    requires Render(f, 0, args).Rendered?
    ensures Midway(f, args, "", 0, 0)
  {
    assert args[0..] == args;
    var r := Render(f, 0, args);
    assert "" + r.text == r.text;
  }
}
