/** The formatter's output buffer: `ZydisFormatterBufferAppendPredefined`, string appends to the current
    literal, and the `ZYDIS_BUFFER_APPEND` macros that serve both output modes. */
module TokenBuffer {
  import opened Bytes
  import opened Memory
  import Numbers
  import Strings = ZyanString
  import opened Tokens
  import opened ZyanNumber

  type LetterCase = Strings.LetterCase

  // ---------- the abstract buffer ----------

  /** A token list with the capacity left behind the start of the current literal, or a plain string with
      its capacity. */
  datatype State = TokenList(tokens: seq<Token>, room: nat) | Plain(text: seq<byte>, room: nat)

  datatype Step = Step(ok: bool, state: State)

  function Min(a: nat, b: nat): nat {
    if a <= b then a else b
  }

  /** Appending predefined tokens is list concatenation, if they fit with a byte to spare. */
  function AppendTokens(s: State, new_: seq<Token>): Step
    requires s.TokenList? && s.tokens != [] && new_ != [] && AllSound(new_)
  {
    var len := Size(Last(s.tokens));
    if s.room <= len + |Encode(new_)| then Step(false, s)
    else Step(true, TokenList(s.tokens + new_, s.room - len - LiteralOffset(new_)))
  }

  /** How much text still fits behind the last literal, whose string capacity is at most 255, or the plain string. */
  function Left(s: State): int
    requires s.TokenList? ==> s.tokens != []
  {
    match s
    case TokenList(tokens, room) => Min(room, 255) - Size(Last(tokens))
    case Plain(text, room) => room - 1 - |text|
  }

  /** The state with its last literal, or its text, extended. */
  function Grow(s: State, src: seq<byte>): State
    requires s.TokenList? ==> s.tokens != []
  {
    match s
    case TokenList(tokens, room) => TokenList(Extend(tokens, src), room)
    case Plain(text, room) => Plain(text + src, room)
  }

  /** Appending text, all or nothing. */
  function AppendText(s: State, src: seq<byte>): Step
    requires s.TokenList? ==> s.tokens != []
  {
    if |src| > Left(s) then Step(false, s) else Step(true, Grow(s, src))
  }

  lemma TextStep(s: State, src: seq<byte>, ok: bool, t: State)
    requires s.TokenList? ==> s.tokens != []
    requires (ok <==> |src| <= Left(s)) && t == if ok then Grow(s, src) else s
    ensures Step(ok, t) == AppendText(s, src)
  {
  }

  /** A signed number, as `ZydisStringAppendDecS` and `ZydisStringAppendHexS` take it. */
  datatype Signed = Signed(radix: Radix, value: int, padding: nat, forceSign: bool, prefix: View, suffix: View)

  /** A 64-bit number between texts without terminators. */
  predicate WellFormedNumber(n: Signed) {
    -Numbers.TWO_63 <= n.value < Numbers.TWO_63 && 0 !in ViewText(n.prefix) && 0 !in ViewText(n.suffix)
  }

  function NumberText(n: Signed): seq<byte>
    requires WellFormedNumber(n)
  {
    SignedText(n.radix, n.value, n.padding, n.forceSign, n.prefix, n.suffix)
  }

  /** What is left of it when there is room for so many bytes. */
  function NumberKept(room: int, n: Signed): seq<byte>
    requires WellFormedNumber(n)
  {
    SignedKept(room, n.radix, n.value, n.padding, n.forceSign, n.prefix, n.suffix)
  }

  /** Appending a signed number; a failure keeps the parts that fit. */
  function AppendNumber(s: State, n: Signed): Step
    requires WellFormedNumber(n) && (s.TokenList? ==> s.tokens != [])
  {
    Step(|NumberText(n)| <= Left(s), Grow(s, NumberKept(Left(s), n)))
  }

  lemma NumberStep(s: State, n: Signed, room: int, ok: bool, kept: seq<byte>)
    requires WellFormedNumber(n) && (s.TokenList? ==> s.tokens != []) && room == Left(s)
    requires (ok <==> |NumberText(n)| <= room) && kept == NumberKept(room, n)
    ensures AppendNumber(s, n) == Step(ok, Grow(s, kept))
  {
  }

  // ---------- predefined tokens ----------

  /** `ZydisPredefinedToken`: the size of the data, and the offset of the last token's literal in it. */
  datatype Predefined = Predefined(size: byte, next: byte, data: seq<byte>)

  predicate WellFormed(p: Predefined, new_: seq<Token>) {
    && new_ != [] && AllSound(new_)
    && p.data == Encode(new_) && p.size == |Encode(new_)| && p.next == LiteralOffset(new_)
  }

  /** A named constant in its two forms, the string `STR_x` and the token list `TOK_x`. */
  datatype Constant = Constant(text: seq<byte>, tok: Predefined, tokens: seq<Token>)

  predicate WellFormedConstant(c: Constant) {
    0 < |c.text| < 256 && 0 !in c.text && WellFormed(c.tok, c.tokens)
  }

  /** The `ZYDIS_BUFFER_APPEND_CASE` macro; in a token list the letter case is not applied. */
  function AppendConstant(s: State, c: Constant, letterCase: LetterCase): Step
    requires WellFormedConstant(c) && (s.TokenList? ==> s.tokens != [])
  {
    if s.TokenList? then AppendTokens(s, c.tokens) else AppendText(s, Strings.InCase(letterCase, c.text))
  }

  // ---------- what the writes do to the bytes ----------

  lemma LinkLast(ts: seq<Token>, e: seq<byte>)
    requires ts != [] && AllSound(ts) && e == Encode(ts)
    ensures LiteralOffset(ts) - 1 < |e|
    ensures e[LiteralOffset(ts) - 1 := Size(Last(ts))] == Linked(Init(ts)) + OneToken(Last(ts), Size(Last(ts)))
  {
  }

  /** Memory holds the bytes s at p. */
  predicate Holds(m: seq<byte>, p: nat, s: seq<byte>) {
    p + |s| <= |m| && m[p..p + |s|] == s
  }

  /** `(ZyanU8)` */
  function U8(n: nat): byte {
    n % 256
  }

  /** Outside the size bytes at p the two memories are the same. */
  predicate OnlyWithin(m: seq<byte>, m': seq<byte>, p: nat, size: nat) {
    |m'| == |m| && forall i | 0 <= i < |m| && !(p <= i < p + size) :: m'[i] == m[i]
  }

  lemma HoldsUpdate(m: seq<byte>, p: nat, s: seq<byte>, i: nat, b: byte)
    requires Holds(m, p, s) && i < |s|
    ensures Holds(m[p + i := b], p, s[i := b])
  {
  }

  lemma HoldsMore(m: seq<byte>, p: nat, s: seq<byte>, m': seq<byte>, t: seq<byte>)
    requires Holds(m, p, s) && Wrote(m, p + |s|, m', t)
    ensures Holds(m', p, s + t)
  {
    assert m'[p..p + |s|] == m[p..p + |s|];
    assert m'[p + |s|..p + |s| + |t|] == t;
    assert m'[p..p + |s| + |t|] == m'[p..p + |s|] + m'[p + |s|..p + |s| + |t|];
  }

  /** The two writes of a successful append turn the encoding of ts into that of ts + new_. */
  lemma AppendBytes(m: seq<byte>, first: nat, ts: seq<Token>, new_: seq<Token>, m': seq<byte>)
    requires ts != [] && new_ != [] && AllSound(ts) && AllSound(new_)
    requires Holds(m, first, Encode(ts)) && Size(Last(ts)) < 256
    requires Wrote(m[first + LiteralOffset(ts) - 1 := Size(Last(ts))], first + |Encode(ts)|, m', Encode(new_))
    ensures AllSound(ts + new_) && Holds(m', first, Encode(ts + new_))
  {
    var i := LiteralOffset(ts) - 1;
    LinkLast(ts, Encode(ts));
    HoldsUpdate(m, first, Encode(ts), i, Size(Last(ts)));
    HoldsMore(m[first + i := Size(Last(ts))], first, Encode(ts)[i := Size(Last(ts))], m', Encode(new_));
    EncodeAppend(ts, new_);
  }

  lemma ExtendBytes(m: seq<byte>, first: nat, ts: seq<Token>, src: seq<byte>, m': seq<byte>)
    requires ts != [] && AllSound(ts) && 0 !in src && Size(Last(ts)) + |src| <= 255
    requires Holds(m, first, Encode(ts))
    requires Wrote(m, first + |Encode(ts)| - 1, m', src + [0])
    ensures AllSound(Extend(ts, src)) && Holds(m', first, Encode(Extend(ts, src)))
    ensures LiteralOffset(Extend(ts, src)) == LiteralOffset(ts) && Size(Last(Extend(ts, src))) == Size(Last(ts)) + |src|
  {
    var e, ext := Encode(ts), Extend(ts, src);
    assert Init(ext) == Init(ts) && Last(ext) == Token(Last(ts).kind, Last(ts).text + src);
    var front := Linked(Init(ts)) + [Last(ts).kind, 0] + Last(ts).text;
    assert e == front + [0];
    assert Encode(ext) == front + (src + [0]);
    assert m[first..first + |front|] == m[first..first + |e|][..|front|] == front;
    HoldsMore(m, first, front, m', src + [0]);
  }

  lemma PredefinedWrites(m: seq<byte>, linked: seq<byte>, m': seq<byte>, first: nat, ts: seq<Token>, new_: seq<Token>)
    requires ts != [] && new_ != [] && AllSound(ts) && AllSound(new_)
    requires Holds(m, first, Encode(ts)) && Size(Last(ts)) < 256 && LiteralOffset(ts) - 1 < |Encode(ts)|
    requires linked == m[first + LiteralOffset(ts) - 1 := Size(Last(ts))]
    requires Wrote(linked, first + |Encode(ts)|, m', Encode(new_))
    ensures AllSound(ts + new_) && Holds(m', first, Encode(ts + new_))
    ensures |m'| == |m|
    ensures forall i | 0 <= i < |m| && !(first <= i < first + |Encode(ts)| + |Encode(new_)|) :: m'[i] == m[i]
  {
    AppendBytes(m, first, ts, new_, m');
  }

  lemma LastByteIsNul(m: seq<byte>, first: nat, ts: seq<Token>)
    requires ts != [] && AllSound(ts) && Holds(m, first, Encode(ts))
    ensures m[first + |Encode(ts)| - 1] == 0
  {
    var e := Encode(ts);
    assert m[first..first + |e|][|e| - 1] == e[|e| - 1] == 0;
  }

  // ---------- the buffer ----------

  class FormatterBuffer {
    const mem: array<byte>
    const isTokenList: bool
    const str: ZyanString
    var capacity: nat
    ghost const first: nat  // where the first token stands
    ghost var tokens: seq<Token>

    /** Adopts memory in which `ts` is already encoded at `first`, the string referring to the last literal. */
    constructor ForTokens(str: ZyanString, capacity: nat, ghost first: nat, ghost ts: seq<Token>)
      requires ts != [] && AllSound(ts)
      requires str.Valid() && str.capacity == Min(capacity, 255) && str.data + capacity <= str.mem.Length
      requires str.data == first + LiteralOffset(ts) && str.size == Size(Last(ts))
      requires Holds(str.mem[..], first, Encode(ts))
      ensures Valid() && isTokenList && this.str == str && mem == str.mem && this.first == first
      ensures Abstract() == TokenList(ts, capacity)
    {
      this.str, this.mem, this.isTokenList := str, str.mem, true;
      this.capacity, this.first, this.tokens := capacity, first, ts;
    }

    constructor ForString(str: ZyanString)
      requires str.Valid()
      ensures Valid() && !isTokenList && this.str == str && mem == str.mem
      ensures Abstract() == Plain(str.Text(), str.capacity)
    {
      this.str, this.mem, this.isTokenList := str, str.mem, false;
      this.capacity, this.first, this.tokens := str.capacity, str.data, [];
    }

    ghost predicate Valid()
      reads this, str, mem
    {
      && str.mem == mem && str.Valid()
      && (isTokenList ==>
            && tokens != [] && AllSound(tokens)
            && str.capacity == Min(capacity, 255) && str.data + capacity <= mem.Length
            && str.data == first + LiteralOffset(tokens) && str.size == Size(Last(tokens))
            && Holds(mem[..], first, Encode(tokens)))
    }

    ghost function Abstract(): State
      requires Valid()
      reads this, str, mem
    {
      if isTokenList then TokenList(tokens, capacity) else Plain(str.Text(), str.capacity)
    }

    /** `ZydisFormatterBufferAppendPredefined`: on success the tokens are concatenated, otherwise nothing changes;
        the end of the buffer stays where it is, and nothing outside the tokens is written. */
    method AppendPredefined(p: Predefined, ghost new_: seq<Token>) returns (ok: bool)
      requires Valid() && isTokenList && WellFormed(p, new_)
      modifies this, str, mem
      ensures Valid()
      ensures ok <==> old(str.size) + p.size < old(capacity)
      ensures tokens == if ok then old(tokens) + new_ else old(tokens)
      ensures ok ==> str.data == old(str.data) + old(str.size) + p.next && str.size == p.size - p.next
      ensures ok ==> str.capacity == if capacity < 255 then capacity else 255
      ensures Step(ok, Abstract()) == AppendTokens(old(Abstract()), new_)
      ensures str.data + capacity == old(str.data + capacity)
      ensures !ok ==> mem[..] == old(mem[..]) && str.data == old(str.data)
      ensures forall i | 0 <= i < mem.Length && !(first <= i < str.data + str.size) :: mem[i] == old(mem[i])
    {
      var len := str.size;
      EncodedSize(new_);
      if capacity <= len + p.size {
        return false;
      }
      TakeOver(len, p, new_);
      return true;
    }

    /** The writes and the new state of a successful append. */
    method TakeOver(len: nat, p: Predefined, ghost new_: seq<Token>)
      requires Valid() && isTokenList && WellFormed(p, new_)
      requires len == str.size && len + p.size < capacity
      modifies this, str, mem
      ensures Valid() && tokens == old(tokens) + new_
      ensures capacity == old(capacity) - len - p.next && str.data == old(str.data) + len + p.next
      ensures str.size == p.size - p.next
      ensures forall i | 0 <= i < mem.Length && !(first <= i < str.data + str.size) :: mem[i] == old(mem[i])
    {
      WritePredefined(len, p, new_);
      EncodedSize(tokens);
      EncodedSize(new_);
      EncodeAppend(tokens, new_);
      EncodedSize(tokens + new_);
      LastByteIsNul(mem[..], first, tokens + new_);
      var delta := len + p.next;
      capacity := capacity - delta;
      str.data := str.data + delta;
      str.size := p.size - p.next;
      str.capacity := Min(capacity, 255);
      tokens := tokens + new_;
    }

    /** The writes of a successful append: the 8-bit offset of the last token, and the new tokens. */
    method WritePredefined(len: nat, p: Predefined, ghost new_: seq<Token>)
      requires Valid() && isTokenList && WellFormed(p, new_)
      requires len == str.size && len + p.size < capacity
      modifies mem
      ensures AllSound(tokens + new_) && Holds(mem[..], first, Encode(tokens + new_))
      ensures forall i | 0 <= i < mem.Length && !(first <= i < str.data + len + p.size) :: mem[i] == old(mem[i])
    {
      ghost var m := mem[..];
      EncodedSize(tokens);
      assert p.data[..p.size] == p.data;
      WriteTokens(len, p.data[..p.size]);
      PredefinedWrites(m, m[str.data - 1 := U8(len)], mem[..], first, tokens, new_);
    }

    /** The 8-bit offset in front of the literal, and the data behind its len bytes. */
    method WriteTokens(len: nat, data: seq<byte>)
      requires str.mem == mem && 1 <= str.data && str.data + len + |data| <= mem.Length
      modifies mem
      ensures Wrote(old(mem[..])[str.data - 1 := U8(len)], str.data + len, mem[..], data)
    {
      ghost var m := mem[..];
      mem[str.data - 1] := U8(len);
      assert mem[..] == m[str.data - 1 := U8(len)];
      str.CopyIn(str.data + len, data);
    }

    /** State s describes the buffer with memory m, its string being given by start, size and capacity. */
    ghost predicate Describes(s: State, m: seq<byte>, data: nat, size: nat, limit: nat)
      reads this
    {
      && data + size <= |m| && size >= 1
      && if isTokenList then
           && tokens != [] && AllSound(tokens) && s == TokenList(tokens, capacity)
           && limit == Min(capacity, 255) && data + capacity <= mem.Length
           && data == first + LiteralOffset(tokens) && size == Size(Last(tokens))
           && Holds(m, first, Encode(tokens))
         else s == Plain(m[data..data + size - 1], limit)
    }

    /** Nothing has been appended. */
    lemma StillDescribed(s: State, m: seq<byte>, size: nat)
      requires str.mem == mem && str.Valid() && str.size == size && mem[..] == m
      requires Describes(s, m, str.data, size, str.capacity)
      ensures Valid() && Abstract() == s
    {
    }

    /** Takes over what has been appended to the string since memory was m. */
    ghost method Adopt(s: State, m: seq<byte>, size0: nat, added: seq<byte>)
      requires str.mem == mem && 0 !in added
      requires Describes(s, m, str.data, size0, str.capacity) && Strings.GrewBy(str, m, size0, added)
      modifies `tokens
      ensures Valid() && Abstract() == Grow(s, added)
      ensures OnlyWithin(m, mem[..], str.data, str.size)
    {
      if isTokenList {
        EncodedSize(tokens);
        ExtendBytes(m, first, tokens, added, mem[..]);
        tokens := Extend(tokens, added);
      } else {
        Strings.TextGrew(str, m, size0, added);
      }
    }

    /** `ZydisStringAppend` on the buffer's string. */
    method AppendString(src: seq<byte>) returns (ok: bool)
      requires Valid() && 0 !in src
      modifies this, str, mem
      ensures Valid()
      ensures ok <==> old(str.size) + |src| <= old(str.capacity)
      ensures Step(ok, Abstract()) == AppendText(old(Abstract()), src)
      ensures str.data == old(str.data) && capacity == old(capacity)
      ensures !ok ==> mem[..] == old(mem[..])
      ensures OnlyWithin(old(mem[..]), mem[..], str.data, str.size)
    {
      ghost var s, m, size := Abstract(), mem[..], str.size;
      assert Describes(s, m, str.data, size, str.capacity);
      ok := str.Append(src);
      if ok {
        Adopt(s, m, size, src);
      } else {
        StillDescribed(s, m, size);
      }
      TextStep(s, src, ok, Abstract());
    }

    /** `ZydisStringAppendShort` on the buffer's string. */
    method AppendShortString(src: seq<byte>) returns (ok: bool)
      requires Valid() && 0 !in src && 0 < |src| < 256
      modifies this, str, mem
      ensures Valid()
      ensures ok <==> old(str.size) + |src| <= old(str.capacity)
      ensures Step(ok, Abstract()) == AppendText(old(Abstract()), src)
      ensures str.data == old(str.data) && capacity == old(capacity)
      ensures !ok ==> mem[..] == old(mem[..])
      ensures OnlyWithin(old(mem[..]), mem[..], str.data, str.size)
    {
      ghost var s, m, size := Abstract(), mem[..], str.size;
      assert Describes(s, m, str.data, size, str.capacity);
      ok := str.AppendShort(src);
      if ok {
        Adopt(s, m, size, src);
      } else {
        StillDescribed(s, m, size);
      }
      TextStep(s, src, ok, Abstract());
    }

    /** `ZydisStringAppendCase` on the buffer's string. */
    method AppendStringCase(src: seq<byte>, letterCase: LetterCase) returns (ok: bool)
      requires Valid() && 0 !in src
      modifies this, str, mem
      ensures Valid()
      ensures ok <==> old(str.size) + |src| <= old(str.capacity)
      ensures Step(ok, Abstract()) == AppendText(old(Abstract()), Strings.InCase(letterCase, src))
      ensures str.data == old(str.data) && capacity == old(capacity)
      ensures !ok ==> mem[..] == old(mem[..])
      ensures OnlyWithin(old(mem[..]), mem[..], str.data, str.size)
    {
      ghost var s, m, size := Abstract(), mem[..], str.size;
      assert Describes(s, m, str.data, size, str.capacity);
      ghost var cased := Strings.InCase(letterCase, src);
      Strings.CaseKeepsText(letterCase, src);
      assert |cased| == |src|;
      ok := str.AppendCase(src, letterCase);
      if ok {
        Adopt(s, m, size, cased);
      } else {
        StillDescribed(s, m, size);
      }
      TextStep(s, cased, ok, Abstract());
    }

    /** `ZydisStringAppendShortCase` on the buffer's string. */
    method AppendShortStringCase(src: seq<byte>, letterCase: LetterCase) returns (ok: bool)
      requires Valid() && 0 !in src && 0 < |src| < 256
      modifies this, str, mem
      ensures Valid()
      ensures ok <==> old(str.size) + |src| <= old(str.capacity)
      ensures Step(ok, Abstract()) == AppendText(old(Abstract()), Strings.InCase(letterCase, src))
      ensures str.data == old(str.data) && capacity == old(capacity)
      ensures !ok ==> mem[..] == old(mem[..])
      ensures OnlyWithin(old(mem[..]), mem[..], str.data, str.size)
    {
      ghost var s, m, size := Abstract(), mem[..], str.size;
      assert Describes(s, m, str.data, size, str.capacity);
      ghost var cased := Strings.InCase(letterCase, src);
      Strings.CaseKeepsText(letterCase, src);
      assert |cased| == |src|;
      ok := str.AppendShortCase(src, letterCase);
      if ok {
        Adopt(s, m, size, cased);
      } else {
        StillDescribed(s, m, size);
      }
      TextStep(s, cased, ok, Abstract());
    }

    /** `ZydisStringAppendDecS` and `ZydisStringAppendHexS` on the buffer's string: a failure may leave the sign, and
        the prefix of a negative number, behind. */
    method AppendSigned(n: Signed) returns (ok: bool)
      requires Valid() && WellFormedNumber(n)
      modifies this, str, mem
      ensures Valid()
      ensures ok <==> old(str.size) + |NumberText(n)| <= old(str.capacity)
      ensures Step(ok, Abstract()) == AppendNumber(old(Abstract()), n)
      ensures str.data == old(str.data) && capacity == old(capacity)
      ensures OnlyWithin(old(mem[..]), mem[..], str.data, str.size)
    {
      ghost var s, room := Abstract(), str.capacity - str.size;
      ghost var kept;
      var digits := DigitBytes(n.radix, AbsI64(n.value), n.padding);
      KeptIsText(room, n.radix, n.value, n.padding, n.forceSign, n.prefix, n.suffix);
      ok, kept := AppendNumberParts(n.value < 0, digits, n.forceSign, n.prefix, n.suffix, s, room);
      NumberStep(s, n, room, ok, kept);
    }

    /** The branches of the signed appenders, once the digits are known. */
    method AppendNumberParts(negative: bool, digits: seq<byte>, forceSign: bool, prefix: View, suffix: View,
                             ghost s: State, ghost room: int) returns (ok: bool, ghost kept: seq<byte>)
      requires Valid() && s == Abstract() && room == str.capacity - str.size
      requires var sign := if negative then [MINUS] else if forceSign then [PLUS] else [];
        0 !in KeptParts(room, negative, sign, ViewText(prefix), digits + ViewText(suffix))
      modifies this, str, mem
      ensures Valid() && Abstract() == Grow(s, kept) && room == Left(s)
      ensures var sign := if negative then [MINUS] else if forceSign then [PLUS] else [];
        && (ok <==> |sign| + |ViewText(prefix)| + |digits + ViewText(suffix)| <= room)
        && kept == KeptParts(room, negative, sign, ViewText(prefix), digits + ViewText(suffix))
      ensures str.data == old(str.data) && capacity == old(capacity)
      ensures OnlyWithin(old(mem[..]), mem[..], str.data, str.size)
    {
      ghost var m, size := mem[..], str.size;
      assert Describes(s, m, str.data, size, str.capacity);
      ok, kept := AppendParts(str, negative, digits, forceSign, prefix, suffix);
      Adopt(s, m, size, kept);
    }

    /** The `ZYDIS_BUFFER_APPEND` macro. */
    method Append(c: Constant) returns (ok: bool)
      requires Valid() && WellFormedConstant(c)
      modifies this, str, mem
      ensures Valid()
      ensures isTokenList ==>
        && (ok <==> old(str.size) + c.tok.size < old(capacity))
        && tokens == if ok then old(tokens) + c.tokens else old(tokens)
      ensures !isTokenList ==>
        && (ok <==> old(str.size) + |c.text| <= old(str.capacity))
        && str.Text() == if ok then old(str.Text()) + c.text else old(str.Text())
      ensures Step(ok, Abstract()) == AppendConstant(old(Abstract()), c, Strings.Default)
    {
      if isTokenList {
        ok := AppendPredefined(c.tok, c.tokens);
      } else {
        ok := str.AppendShort(c.text);
        assert Strings.InCase(Strings.Default, c.text) == c.text;
      }
    }

    /** The `ZYDIS_BUFFER_APPEND_CASE` macro. */
    method AppendInCase(c: Constant, letterCase: LetterCase) returns (ok: bool)
      requires Valid() && WellFormedConstant(c)
      modifies this, str, mem
      ensures Valid()
      ensures isTokenList ==>
        && (ok <==> old(str.size) + c.tok.size < old(capacity))
        && tokens == if ok then old(tokens) + c.tokens else old(tokens)
      ensures !isTokenList ==>
        && (ok <==> old(str.size) + |c.text| <= old(str.capacity))
        && str.Text() == if ok then old(str.Text()) + Strings.InCase(letterCase, c.text) else old(str.Text())
      ensures Step(ok, Abstract()) == AppendConstant(old(Abstract()), c, letterCase)
    {
      if isTokenList {
        ok := AppendPredefined(c.tok, c.tokens);
      } else {
        ok := str.AppendShortCase(c.text, letterCase);
      }
    }

    /** Following the offsets from the first token reads back exactly the abstract token list. */
    lemma DecodesToTokens()
      requires Valid() && isTokenList
      ensures Decode(mem[..], first) == Abstract().tokens
    {
      DecodeEncode(mem[..], first, tokens);
    }
  }
}
