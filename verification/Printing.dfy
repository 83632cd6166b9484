/** The writing half of the driver's print engine: `printchar`, `prints` and `printi` through a cursor
    into a character buffer. */
module Printing {
  import opened Memory
  import opened Numbers

  class Cursor {
    const buf: array<char>
    var pos: nat

    constructor (buf: array<char>, pos: nat)
      ensures this.buf == buf && this.pos == pos
    {
      this.buf := buf;
      this.pos := pos;
    }

    /** `printchar`. */
    method PrintChar(c: char)
      requires pos < buf.Length
      modifies `pos, buf
      ensures Wrote(old(buf[..]), old(pos), buf[..], [c]) && pos == old(pos) + 1
    {
      buf[pos] := c;
      WroteAll(old(buf[..]), pos, buf[..], [c]);
      pos := pos + 1;
    }

    /** `**out = '\0'`: the cursor stays in front of the terminator. */
    method Terminate()
      requires pos < buf.Length
      modifies buf
      ensures Wrote(old(buf[..]), pos, buf[..], ['\0'])
    {
      buf[pos] := '\0';
      WroteAll(old(buf[..]), pos, buf[..], ['\0']);
    }

    /** A run of pad characters. */
    method PrintPadding(c: char, count: int) returns (pc: nat)
      requires pos <= buf.Length && pos + count <= buf.Length
      modifies `pos, buf
      ensures pc == if count > 0 then count else 0
      ensures Wrote(old(buf[..]), old(pos), buf[..], Repeat(c, pc)) && pos == old(pos) + pc
    {
      pc := 0;
      WroteNothing(buf[..], pos);
      var width := count;
      while width > 0
        invariant pc == if count > 0 then count - width else 0
        invariant width == count || width >= 0
        invariant pos == old(pos) + pc <= buf.Length
        invariant Wrote(old(buf[..]), old(pos), buf[..], Repeat(c, pc))
      {
        ghost var m := buf[..];
        PrintChar(c);
        WroteMore(old(buf[..]), old(pos), m, Repeat(c, pc), buf[..], [c]);
        assert Repeat(c, pc) + [c] == Repeat(c, pc + 1);
        pc := pc + 1;
        width := width - 1;
      }
    }

    /** The padding in front, unless it goes behind; what is left of it is for later. */
    method PrintPaddingLeft(c: char, count: int, right: bool) returns (pc: nat, rest: int)
      requires pos <= buf.Length && pos + count <= buf.Length
      modifies `pos, buf
      ensures pc == (if !right && count > 0 then count else 0) && rest == if right || count < 0 then count else 0
      ensures Wrote(old(buf[..]), old(pos), buf[..], Repeat(c, pc)) && pos == old(pos) + pc
    {
      pc, rest := 0, count;
      if !right {
        pc := PrintPadding(c, count);
        if count > 0 {
          rest := 0;
        }
      } else {
        WroteNothing(buf[..], pos);
        assert Repeat(c, 0) == [];
      }
    }

    /** The characters of a C string up to its terminator. */
    method PrintAll(s: cstring) returns (pc: nat)
      requires pos + |s| <= buf.Length
      modifies `pos, buf
      ensures pc == |s|
      ensures Wrote(old(buf[..]), old(pos), buf[..], s) && pos == old(pos) + pc
    {
      pc := 0;
      WroteNothing(buf[..], pos);
      assert s[..0] == "";
      while pc < |s|
        invariant pc <= |s| && pos == old(pos) + pc
        invariant Wrote(old(buf[..]), old(pos), buf[..], s[..pc])
      {
        ghost var m := buf[..];
        PrintChar(s[pc]);
        WroteMore(old(buf[..]), old(pos), m, s[..pc], buf[..], [s[pc]]);
        assert s[..pc] + [s[pc]] == s[..pc + 1];
        pc := pc + 1;
      }
      assert s[..|s|] == s;
    }

    /** The three loops of `prints`, once the width left for padding is known. */
    method PrintParts(s: cstring, width: int, padchar: char, right: bool) returns (pc: nat)
      requires pos + |s| + (if width > 0 then width else 0) <= buf.Length
      modifies `pos, buf
      ensures pc == |PaddedBy(s, width, padchar, right)| && pos == old(pos) + pc
      ensures Wrote(old(buf[..]), old(pos), buf[..], PaddedBy(s, width, padchar, right))
    {
      ghost var m0, p := buf[..], pos;
      var before, rest := PrintPaddingLeft(padchar, width, right);
      ghost var m1 := buf[..];
      var middle := PrintAll(s);
      ghost var m2 := buf[..];
      WroteMore(m0, p, m1, Repeat(padchar, before), m2, s);
      var after := PrintPadding(padchar, rest);
      WroteMore(m0, p, m2, Repeat(padchar, before) + s, buf[..], Repeat(padchar, after));
      pc := before + middle + after;
    }

    /** `prints`: returns the number of characters written. */
    method Prints(s: cstring, width0: int, pad: Pad) returns (pc: nat)
      requires pos + |Padded(s, width0, pad)| <= buf.Length
      modifies `pos, buf
      ensures pc == |Padded(s, width0, pad)| && pos == old(pos) + pc
      ensures Wrote(old(buf[..]), old(pos), buf[..], Padded(s, width0, pad))
    {
      var width, padchar := width0, ' ';
      if width > 0 {
        width := if |s| >= width then 0 else width - |s|;
        if pad.zero {
          padchar := '0';
        }
      }
      PaddedParts(s, width0, pad, width, padchar);
      pc := PrintParts(s, width, padchar, pad.right);
    }
  }

  /** The characters that the three loops write. */
  function PaddedBy(s: string, width: int, padchar: char, right: bool): (t: string) {
    var n: nat := if width > 0 then width else 0;
    Repeat(padchar, if right then 0 else n) + s + Repeat(padchar, if right then n else 0)
  }

  lemma PaddedParts(s: string, width0: int, pad: Pad, width: int, padchar: char)
    requires width == if width0 <= 0 then width0 else if |s| >= width0 then 0 else width0 - |s|
    requires padchar == if width0 > 0 && pad.zero then '0' else ' '
    ensures PaddedBy(s, width, padchar, pad.right) == Padded(s, width0, pad)
  {
  }

  const PRINT_BUF_LEN: nat := 64

  /** The digit loop of `printi`, filling its buffer backwards from the end; the digits start at the result. */
  method FillDigits(printBuf: array<char>, u0: nat, b: nat, letbase: char) returns (s: nat)
    requires printBuf.Length == PRINT_BUF_LEN && u0 < TWO_64
    requires (b == 10 || b == 16) && (letbase == 'a' || letbase == 'A')
    modifies printBuf
    ensures 43 <= s <= 63 && printBuf[s..63] == Digits(u0, b, letbase)
  {
    DigitsFitBuffer(u0, b, letbase);
    s := PRINT_BUF_LEN - 1;
    printBuf[s] := '\0';
    var u := u0;
    assert printBuf[63..63] == "";
    while u != 0
      invariant 0 <= u && s == 63 - (|Digits(u0, b, letbase)| - |Digits(u, b, letbase)|)
      invariant 43 <= s <= 63 && Digits(u, b, letbase) + printBuf[s..63] == Digits(u0, b, letbase)
      decreases u
    {
      DivSmaller(u, b);
      ghost var tail := printBuf[s..63];
      ghost var front := Digits(u / b, b, letbase);
      s := s - 1;
      printBuf[s] := DigitChar(u % b, letbase);
      assert printBuf[s..63] == [DigitChar(u % b, letbase)] + tail;
      assert front + ([DigitChar(u % b, letbase)] + tail) == front + [DigitChar(u % b, letbase)] + tail;
      u := u / b;
    }
    assert printBuf[s..63] == "" + printBuf[s..63];
  }

  /** The string from the cursor of `printi` on, after the minus sign if it is not printed separately. */
  method PutSign(printBuf: array<char>, cursor: nat, minus: bool) returns (s: cstring)
    requires 1 <= cursor <= 63 < printBuf.Length && '\0' !in printBuf[cursor..63]
    modifies printBuf
    ensures s == if minus then "-" + old(printBuf[cursor..63]) else old(printBuf[cursor..63])
  {
    ghost var digits := printBuf[cursor..63];
    if minus {
      printBuf[cursor - 1] := '-';
      assert printBuf[cursor - 1..63] == "-" + digits;
      return printBuf[cursor - 1..63];
    }
    return printBuf[cursor..63];
  }

  /** The string that `printi` builds in its buffer. */
  method BuildNumber(u: nat, b: nat, letbase: char, minus: bool) returns (s: cstring)
    requires u < TWO_64 && (b == 10 || b == 16) && (letbase == 'a' || letbase == 'A')
    ensures s == if minus then "-" + Digits(u, b, letbase) else Digits(u, b, letbase)
  {
    var printBuf := new char[PRINT_BUF_LEN];
    var cursor := FillDigits(printBuf, u, b, letbase);
    DigitsRead(u, b, letbase);
    s := PutSign(printBuf, cursor, minus);
  }

  /** The minus sign on its own, and then `prints`. */
  method PrintSigned(out: Cursor, s: cstring, width: int, pad: Pad) returns (pc: nat)
    requires out.pos + 1 + |Padded(s, width, pad)| <= out.buf.Length
    modifies out`pos, out.buf
    ensures pc == 1 + |Padded(s, width, pad)| && out.pos == old(out.pos) + pc
    ensures Wrote(old(out.buf[..]), old(out.pos), out.buf[..], "-" + Padded(s, width, pad))
  {
    ghost var m0, p0 := out.buf[..], out.pos;
    out.PrintChar('-');
    ghost var m1 := out.buf[..];
    pc := out.Prints(s, width, pad);
    WroteMore(m0, p0, m1, "-", out.buf[..], Padded(s, width, pad));
    pc := pc + 1;
  }

  /** `printi`. */
  method Printi(out: Cursor, i: int, b: nat, sg: bool, width: int, pad: Pad, letbase: char) returns (pc: nat)
    requires -TWO_63 <= i < TWO_63 && (b == 10 || b == 16) && (letbase == 'a' || letbase == 'A')
    requires out.pos + |Number(i, b, sg, width, pad, letbase)| <= out.buf.Length
    modifies out`pos, out.buf
    ensures pc == |Number(i, b, sg, width, pad, letbase)| && out.pos == old(out.pos) + pc
    ensures Wrote(old(out.buf[..]), old(out.pos), out.buf[..], Number(i, b, sg, width, pad, letbase))
  {
    if i == 0 {
      pc := out.Prints("0", width, pad);
      return;
    }
    var neg := sg && b == 10 && i < 0;
    var separate := neg && width != 0 && pad.zero;
    var s := BuildNumber(if neg then -i else AsUnsigned(i), b, letbase, neg && !separate);
    if separate {
      pc := PrintSigned(out, s, width - 1, pad);
    } else {
      pc := out.Prints(s, width, pad);
    }
  }
}
