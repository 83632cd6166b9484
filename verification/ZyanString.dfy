/** The string appenders: `ZydisStringAppend` and its relatives, on strings in fixed buffers. */
module ZyanString {
  import opened Bytes
  import opened Memory

  datatype LetterCase = Default | Lower | Upper

  /** `c | 32` */
  function SetBit5(c: byte): byte {
    if c / 32 % 2 == 0 then c + 32 else c
  }

  /** `c & ~32` */
  function ClearBit5(c: byte): byte {
    if c / 32 % 2 == 1 then c - 32 else c
  }

  function CaseByte(letterCase: LetterCase, c: byte): byte {
    match letterCase
    case Default => c
    case Lower => if 65 <= c <= 90 then SetBit5(c) else c
    case Upper => if 97 <= c <= 122 then ClearBit5(c) else c
  }

  function InCase(letterCase: LetterCase, s: seq<byte>): (t: seq<byte>)
    ensures |t| == |s| && forall i | 0 <= i < |s| :: t[i] == CaseByte(letterCase, s[i])
  {
    seq(|s|, i requires 0 <= i < |s| => CaseByte(letterCase, s[i]))
  }

  class ZyanString {
    const mem: array<byte>
    var data: nat
    var size: nat  // with the terminator
    var capacity: nat

    constructor (mem: array<byte>, data: nat, size: nat, capacity: nat)
      ensures this.mem == mem && this.data == data && this.size == size && this.capacity == capacity
    {
      this.mem := mem;
      this.data, this.size, this.capacity := data, size, capacity;
    }

    predicate Valid()
      reads this, mem
    {
      1 <= size <= capacity && data + capacity <= mem.Length && mem[data + size - 1] == 0
    }

    function Text(): seq<byte>
      reads this, mem
      requires Valid()
    {
      mem[data..data + size - 1]
    }

    /** `memcpy` from the source into the buffer at p. */
    method CopyIn(p: nat, src: seq<byte>)
      requires p + |src| <= mem.Length
      modifies mem
      ensures Wrote(old(mem[..]), p, mem[..], src)
    {
      var i := 0;
      while i < |src|
        invariant 0 <= i <= |src|
        invariant forall k | 0 <= k < mem.Length :: mem[k] == if p <= k < p + i then src[k - p] else old(mem[k])
      {
        mem[p + i] := src[i];
        i := i + 1;
      }
      WroteAll(old(mem[..]), p, mem[..], src);
    }

    /** The letter-case loops. */
    method ConvertCase(index: nat, count: nat, letterCase: LetterCase)
      requires data + index + count <= mem.Length
      modifies mem
      ensures Wrote(old(mem[..]), data + index, mem[..],
                    InCase(letterCase, old(mem[data + index..data + index + count])))
    {
      ghost var m, p := mem[..], data + index;
      var s, i := data + index, index;
      while i < index + count
        invariant index <= i <= index + count && s == data + i
        invariant forall k | p <= k < s :: mem[k] == CaseByte(letterCase, m[k])
        invariant forall k | 0 <= k < mem.Length && !(p <= k < s) :: mem[k] == m[k]
      {
        ConvertChar(s, letterCase);
        s, i := s + 1, i + 1;
      }
      ConvertedAll(m, p, count, mem[..], letterCase);
    }

    /** The body of these loops. */
    method ConvertChar(s: nat, letterCase: LetterCase)
      requires s < mem.Length
      modifies mem
      ensures mem[s] == CaseByte(letterCase, old(mem[s]))
      ensures forall k | 0 <= k < mem.Length && k != s :: mem[k] == old(mem[k])
    {
      var c := mem[s];
      if letterCase == Lower {
        if 65 <= c <= 90 {
          mem[s] := SetBit5(c);
        }
      } else if letterCase == Upper {
        if 97 <= c <= 122 {
          mem[s] := ClearBit5(c);
        }
      }
    }

    /** The copy and the conversion of `ZydisStringAppendCase`, behind the text. */
    method CopyInCase(src: seq<byte>, letterCase: LetterCase) returns (ghost cased: seq<byte>)
      requires size >= 1 && data + size - 1 + |src| <= mem.Length
      modifies mem
      ensures cased == InCase(letterCase, src)
      ensures Wrote(old(mem[..]), data + size - 1, mem[..], cased)
    {
      ghost var m := mem[..];
      var p := data + size - 1;
      CopyIn(p, src);
      ghost var m' := mem[..];
      assert mem[p..p + |src|] == src;
      ConvertCase(size - 1, |src|, letterCase);
      cased := InCase(letterCase, src);
      WroteOver(m, p, m', src, mem[..], cased);
    }

    /** The copy and the conversion of `ZydisStringAppendShortCase`; the terminator is copied along. */
    method CopyInShortCase(src: seq<byte>, letterCase: LetterCase) returns (ghost cased: seq<byte>)
      requires size >= 1 && data + size + |src| <= mem.Length
      modifies mem
      ensures cased == InCase(letterCase, src)
      ensures Wrote(old(mem[..]), data + size - 1, mem[..], cased + [0])
    {
      ghost var m := mem[..];
      var p := data + size - 1;
      CopyIn(p, src + [0]);
      ghost var m' := mem[..];
      TextGrows(m, m', p, p, src);
      assert mem[p..p + |src|] == src;
      ConvertCase(size - 1, |src|, letterCase);
      cased := InCase(letterCase, src);
      WroteFront(m, p, m', src, [0], mem[..], cased);
    }

    /** `ZYDIS_STRING_NULLTERMINATE` */
    method Terminate()
      requires size >= 1 && data + size <= mem.Length
      modifies mem
      ensures Wrote(old(mem[..]), data + size - 1, mem[..], [0])
    {
      mem[data + size - 1] := 0;
      WroteAll(old(mem[..]), data + size - 1, mem[..], [0]);
    }

    /** The new size, when `bytes` and a terminator have been written behind the text of memory m. */
    method Grow(count: nat, ghost m: seq<byte>, ghost bytes: seq<byte>)
      requires |bytes| == count && 1 <= size && size + count <= capacity && data + capacity <= mem.Length
      requires Wrote(m, data + size - 1, mem[..], bytes + [0])
      modifies `size
      ensures Valid() && size == old(size) + count
      ensures Text() == m[data..data + old(size) - 1] + bytes
    {
      TextGrows(m, mem[..], data, data + size - 1, bytes);
      size := size + count;
    }

    /** The same, when the terminator is still to be written. */
    method Close(count: nat, ghost m: seq<byte>, ghost bytes: seq<byte>)
      requires |bytes| == count && 1 <= size && size + count <= capacity && data + capacity <= mem.Length
      requires Wrote(m, data + size - 1, mem[..], bytes)
      modifies `size, mem
      ensures Valid() && size == old(size) + count
      ensures Wrote(m, data + old(size) - 1, mem[..], bytes + [0])
      ensures Text() == m[data..data + old(size) - 1] + bytes
    {
      ghost var m', p := mem[..], data + size - 1;
      size := size + count;
      Terminate();
      WroteMore(m, p, m', bytes, mem[..], [0]);
      TextGrows(m, mem[..], data, p, bytes);
    }

    /** `ZydisStringAppend`: succeeds if the result fits; then the source and a terminator stand where the old
        terminator was, and nothing else has changed. */
    method Append(src: seq<byte>) returns (ok: bool)
      requires Valid()
      modifies `size, mem
      ensures Valid()
      ensures ok <==> old(size) + |src| <= capacity
      ensures !ok ==> size == old(size) && mem[..] == old(mem[..])
      ensures ok ==> size == old(size) + |src| && Wrote(old(mem[..]), data + old(size) - 1, mem[..], src + [0])
      ensures ok ==> Text() == old(Text()) + src
    {
      if size + (|src| + 1) - 1 > capacity {
        return false;
      }
      AppendFitting(src, mem[..], Text());
      return true;
    }

    /** The append once it is known to fit. */
    method AppendFitting(src: seq<byte>, ghost m: seq<byte>, ghost text: seq<byte>)
      requires Valid() && size + |src| <= capacity && m == mem[..] && text == Text()
      modifies `size, mem
      ensures Valid() && size == old(size) + |src|
      ensures Wrote(m, data + old(size) - 1, mem[..], src + [0])
      ensures Text() == text + src
    {
      assert m[data..data + size - 1] == text;
      CopyIn(data + size - 1, src);
      Close(|src|, m, src);
    }

    /** `ZydisStringAppendCase` */
    method AppendCase(src: seq<byte>, letterCase: LetterCase) returns (ok: bool)
      requires Valid()
      modifies `size, mem
      ensures Valid()
      ensures ok <==> old(size) + |src| <= capacity
      ensures !ok ==> size == old(size) && mem[..] == old(mem[..])
      ensures ok ==> size == old(size) + |src|
      ensures ok ==> Wrote(old(mem[..]), data + old(size) - 1, mem[..], InCase(letterCase, src) + [0])
      ensures ok ==> Text() == old(Text()) + InCase(letterCase, src)
    {
      if size + (|src| + 1) - 1 > capacity {
        return false;
      }
      AppendFittingCase(src, letterCase, mem[..], Text());
      return true;
    }

    method AppendFittingCase(src: seq<byte>, letterCase: LetterCase, ghost m: seq<byte>, ghost text: seq<byte>)
      requires Valid() && size + |src| <= capacity && m == mem[..] && text == Text()
      modifies `size, mem
      ensures Valid() && size == old(size) + |src|
      ensures Wrote(m, data + old(size) - 1, mem[..], InCase(letterCase, src) + [0])
      ensures Text() == text + InCase(letterCase, src)
    {
      assert m[data..data + size - 1] == text;
      ghost var cased := CopyInCase(src, letterCase);
      Close(|src|, m, cased);
    }

    /** `ZydisStringAppendShort`: the source brings its own terminator along. */
    method AppendShort(src: seq<byte>) returns (ok: bool)
      requires Valid() && 0 < |src| < 256
      modifies `size, mem
      ensures Valid()
      ensures ok <==> old(size) + |src| <= capacity
      ensures !ok ==> size == old(size) && mem[..] == old(mem[..])
      ensures ok ==> size == old(size) + |src| && Wrote(old(mem[..]), data + old(size) - 1, mem[..], src + [0])
      ensures ok ==> Text() == old(Text()) + src
    {
      if size + |src| > capacity {
        return false;
      }
      ghost var m := mem[..];
      var p := data + size - 1;
      CopyIn(p, src + [0]);
      Grow(|src|, m, src);
      return true;
    }

    /** `ZydisStringAppendShortCase` */
    method AppendShortCase(src: seq<byte>, letterCase: LetterCase) returns (ok: bool)
      requires Valid() && 0 < |src| < 256
      modifies `size, mem
      ensures Valid()
      ensures ok <==> old(size) + |src| <= capacity
      ensures !ok ==> size == old(size) && mem[..] == old(mem[..])
      ensures ok ==> size == old(size) + |src|
      ensures ok ==> Wrote(old(mem[..]), data + old(size) - 1, mem[..], InCase(letterCase, src) + [0])
      ensures ok ==> Text() == old(Text()) + InCase(letterCase, src)
    {
      if size + |src| > capacity {
        return false;
      }
      ghost var m := mem[..];
      ghost var cased := CopyInShortCase(src, letterCase);
      Grow(|src|, m, cased);
      return true;
    }
  }

  lemma TextGrows(m: seq<byte>, m': seq<byte>, data: nat, p: nat, src: seq<byte>)
    requires data <= p && Wrote(m, p, m', src + [0])
    ensures m'[data..p + |src|] == m[data..p] + src && m'[p + |src|] == 0
  {
    assert m'[..p] == m[..p];
    assert m'[p..p + |src + [0]|] == src + [0];
  }

  /** Element by element. */
  lemma ConvertedAll(m: seq<byte>, p: nat, count: nat, m': seq<byte>, letterCase: LetterCase)
    requires p + count <= |m| == |m'|
    requires forall k | 0 <= k < |m| :: m'[k] == if p <= k < p + count then CaseByte(letterCase, m[k]) else m[k]
    ensures Wrote(m, p, m', InCase(letterCase, m[p..p + count]))
  {
    var cased := InCase(letterCase, m[p..p + count]);
    forall k | p <= k < p + count ensures m'[k] == cased[k - p] {
      assert m[p..p + count][k - p] == m[k];
    }
    WroteAll(m, p, m', cased);
  }

  // ---------- several appends ----------

  /** Since memory was m0 and the size size0, `added` has been appended, and nothing else has changed. */
  ghost predicate GrewBy(str: ZyanString, m0: seq<byte>, size0: nat, added: seq<byte>)
    reads str, str.mem
  {
    && str.Valid() && size0 >= 1 && str.size == size0 + |added|
    && Wrote(m0, str.data + size0 - 1, str.mem[..], added + [0])
  }

  lemma TextGrew(str: ZyanString, m0: seq<byte>, size0: nat, added: seq<byte>)
    requires GrewBy(str, m0, size0, added)
    ensures str.Text() == m0[str.data..str.data + size0 - 1] + added
  {
    TextGrows(m0, str.mem[..], str.data, str.data + size0 - 1, added);
  }

  lemma StillTerminated(m: seq<byte>, p: nat)
    requires p < |m| && m[p] == 0
    ensures Wrote(m, p, m, [] + [0])
  {
    assert m == m[..p] + [0] + m[p + 1..];
  }

  /** Appending over the terminator of what was appended before. */
  lemma WroteOn(m: seq<byte>, p: nat, m': seq<byte>, s: seq<byte>, m'': seq<byte>, t: seq<byte>)
    requires Wrote(m, p, m', s + [0]) && Wrote(m', p + |s|, m'', t + [0])
    ensures Wrote(m, p, m'', s + t + [0])
  {
    assert m'[..p + |s|] == m[..p] + s;
    assert m'[p + |s| + |t| + 1..] == m[p + |s| + |t| + 1..];
    assert m[..p] + s + (t + [0]) == m[..p] + (s + t + [0]);
  }

  /** Writing again over what has just been written. */
  lemma WroteOver(m: seq<byte>, p: nat, m': seq<byte>, s: seq<byte>, m'': seq<byte>, t: seq<byte>)
    requires Wrote(m, p, m', s) && Wrote(m', p, m'', t) && |s| == |t|
    ensures Wrote(m, p, m'', t)
  {
    assert m'[..p] == m[..p] && m'[p + |s|..] == m[p + |s|..];
  }

  lemma WroteFront(m: seq<byte>, p: nat, m': seq<byte>, s: seq<byte>, rest: seq<byte>, m'': seq<byte>, t: seq<byte>)
    requires Wrote(m, p, m', s + rest) && Wrote(m', p, m'', t) && |s| == |t|
    ensures Wrote(m, p, m'', t + rest)
  {
    assert m'[..p] == m[..p];
    assert m'[p + |s|..] == rest + m[p + |s + rest|..];
    assert m[..p] + t + (rest + m[p + |s + rest|..]) == m[..p] + (t + rest) + m[p + |s + rest|..];
  }

  // ---------- letter case ----------

  /** Lowering adds 32 to the capital letters and changes nothing else, raising takes 32 from the small ones;
      neither ever stores a terminator, and each undoes the other on letters of its own case. */
  lemma CaseMaps(c: byte)
    ensures CaseByte(Default, c) == c
    ensures CaseByte(Lower, c) == if 65 <= c <= 90 then c + 32 else c
    ensures CaseByte(Upper, c) == if 97 <= c <= 122 then c - 32 else c
    ensures CaseByte(Upper, c) == 0 || CaseByte(Lower, c) == 0 <==> c == 0
    ensures 65 <= c <= 90 ==> CaseByte(Upper, CaseByte(Lower, c)) == c
    ensures 97 <= c <= 122 ==> CaseByte(Lower, CaseByte(Upper, c)) == c
  {
  }

  /** A text stays a text in every letter case. */
  lemma CaseKeepsText(letterCase: LetterCase, src: seq<byte>)
    requires 0 !in src
    ensures 0 !in InCase(letterCase, src)
  {
    forall i | 0 <= i < |src| ensures CaseByte(letterCase, src[i]) != 0 {
      CaseMaps(src[i]);
    }
  }
}
