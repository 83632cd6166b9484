/** The byte format of a token list, and the abstract token lists it stands for. */
module Tokens {
  import opened Bytes

  /** A token: its type and its literal. */
  datatype Token = Token(kind: byte, text: seq<byte>)

  /** The literal is a C string, and with its terminator it is short enough for an 8-bit offset. */
  predicate Sound(t: Token) {
    0 !in t.text && |t.text| < 255
  }

  predicate AllSound(ts: seq<Token>) {
    forall i | 0 <= i < |ts| :: Sound(ts[i])
  }

  /** The size of a literal with its terminator. */
  function Size(t: Token): nat { |t.text| + 1 }

  /** Tokens that are each linked to a successor: type, offset to the next token, literal, terminator. */
  function Linked(ts: seq<Token>): seq<byte>
    requires AllSound(ts)
  {
    if ts == [] then [] else
      var t := ts[0];
      [t.kind, Size(t)] + t.text + [0] + Linked(ts[1..])
  }

  function Init(ts: seq<Token>): seq<Token>
    requires ts != []
  {
    ts[..|ts| - 1]
  }

  function Last(ts: seq<Token>): Token
    requires ts != []
  {
    ts[|ts| - 1]
  }

  /** A token list: the last token has no successor, so its offset is zero. */
  function Encode(ts: seq<Token>): seq<byte>
    requires ts != [] && AllSound(ts)
  {
    Linked(Init(ts)) + [Last(ts).kind, 0] + Last(ts).text + [0]
  }

  /** Where the literal of the last token starts in the encoding. */
  function LiteralOffset(ts: seq<Token>): nat
    requires ts != [] && AllSound(ts)
  {
    |Linked(Init(ts))| + 2
  }

  lemma {:induction false} LinkedAppend(a: seq<Token>, b: seq<Token>)
    requires AllSound(a) && AllSound(b)
    ensures AllSound(a + b) && Linked(a + b) == Linked(a) + Linked(b)
  {
    if a == [] {
      assert a + b == b;
    } else {
      LinkedAppend(a[1..], b);
      assert (a + b)[1..] == a[1..] + b;
      var head := [a[0].kind, Size(a[0])] + a[0].text + [0];
      assert head + (Linked(a[1..]) + Linked(b)) == head + Linked(a[1..]) + Linked(b);
    }
  }

  lemma EncodedSize(ts: seq<Token>)
    requires ts != [] && AllSound(ts)
    ensures |Encode(ts)| == LiteralOffset(ts) + Size(Last(ts))
  {
  }

  /** The bytes of a token whose offset is `next`. */
  function OneToken(t: Token, next: byte): seq<byte> {
    [t.kind, next] + t.text + [0]
  }

  lemma LinkedOne(t: Token)
    requires Sound(t)
    ensures AllSound([t]) && Linked([t]) == OneToken(t, Size(t))
  {
    assert Linked([t]) == OneToken(t, Size(t)) + Linked([]);
  }

  /** Appending a token list sets the offset of the last token and puts the new tokens behind it. */
  lemma EncodeAppend(ts: seq<Token>, new_: seq<Token>)
    requires ts != [] && new_ != [] && AllSound(ts) && AllSound(new_)
    ensures AllSound(ts + new_)
    ensures Encode(ts + new_) == Linked(Init(ts)) + OneToken(Last(ts), Size(Last(ts))) + Encode(new_)
    ensures LiteralOffset(ts + new_) == |Encode(ts)| + LiteralOffset(new_)
    ensures Last(ts + new_) == Last(new_)
  {
    LinkedOne(Last(ts));
    LinkedAppend(Init(ts), [Last(ts)]);
    assert Init(ts) + [Last(ts)] == ts;
    LinkedAppend(ts, Init(new_));
    assert Init(ts + new_) == ts + Init(new_);
    assert Encode(ts + new_) == Linked(ts) + Linked(Init(new_)) + [Last(new_).kind, 0] + Last(new_).text + [0];
    assert Encode(ts + new_) == Linked(ts) + Encode(new_);
  }

  /** Making the last literal longer. */
  function Extend(ts: seq<Token>, src: seq<byte>): seq<Token>
    requires ts != []
  {
    Init(ts) + [Token(Last(ts).kind, Last(ts).text + src)]
  }

  // ---------- decoding ----------

  /** Following the offsets from the token at h, as `ZydisFormatterTokenNext` does; a token that does not lie
      within memory ends the list. */
  function Decode(m: seq<byte>, h: nat): seq<Token>
    decreases |m| - h
  {
    if h + 2 < |m| && IsCString(m, h + 2) then
      var t := Token(m[h], Str(m, h + 2));
      if m[h + 1] == 0 then [t] else [t] + Decode(m, h + 2 + m[h + 1])
    else []
  }

  /** A token whose bytes stand at h can be read there. */
  lemma TokenAt(m: seq<byte>, h: nat, t: Token, next: byte)
    requires Sound(t) && h + |OneToken(t, next)| <= |m|
    requires m[h..h + |OneToken(t, next)|] == OneToken(t, next)
    ensures h + 2 < |m| && m[h] == t.kind && m[h + 1] == next
    ensures IsCString(m, h + 2) && Str(m, h + 2) == t.text
  {
    var bytes := OneToken(t, next);
    assert forall i | 0 <= i < |bytes| :: m[h + i] == m[h..h + |bytes|][i] == bytes[i];
    assert m[h] == bytes[0] && m[h + 1] == bytes[1];
    TextAt(m, h + 2, t.text);
  }

  lemma TextAt(m: seq<byte>, p: nat, text: seq<byte>)
    requires 0 !in text && p + |text| < |m| && m[p + |text|] == 0
    requires forall i | 0 <= i < |text| :: m[p + i] == text[i]
    ensures IsCString(m, p) && Str(m, p) == text
  {
    forall i | p <= i < p + |text| ensures m[i] != 0 {
      assert m[p + (i - p)] == text[i - p];
    }
    EndIs(m, p, p + |text|);
  }

  lemma DecodeStep(m: seq<byte>, h: nat, t: Token)
    requires h + 2 < |m| && IsCString(m, h + 2) && m[h] == t.kind && Str(m, h + 2) == t.text
    ensures Decode(m, h) == if m[h + 1] == 0 then [t] else [t] + Decode(m, h + 2 + m[h + 1])
  {
    assert Token(m[h], Str(m, h + 2)) == t;
  }

  lemma DecodeLast(m: seq<byte>, h: nat, t: Token)
    requires Sound(t) && h + |OneToken(t, 0)| <= |m|
    requires m[h..h + |OneToken(t, 0)|] == OneToken(t, 0)
    ensures Decode(m, h) == [t]
  {
    TokenAt(m, h, t, 0);
    DecodeStep(m, h, t);
  }

  lemma DecodeLinked(m: seq<byte>, h: nat, t: Token, bytes: seq<byte>, next: byte)
    requires Sound(t) && bytes == OneToken(t, next) && next > 0 && h + |bytes| <= |m|
    requires m[h..h + |bytes|] == bytes
    ensures Decode(m, h) == [t] + Decode(m, h + 2 + next)
  {
    TokenAt(m, h, t, next);
    DecodeStep(m, h, t);
  }

  lemma Slices(m: seq<byte>, h: nat, a: seq<byte>, b: seq<byte>)
    requires h + |a| + |b| <= |m| && m[h..h + |a| + |b|] == a + b
    ensures m[h..h + |a|] == a && m[h + |a|..h + |a| + |b|] == b
  {
    assert m[h..h + |a|] == (a + b)[..|a|];
    assert m[h + |a|..h + |a| + |b|] == (a + b)[|a|..];
  }

  /** Decoding is the inverse of encoding, wherever the encoding stands in memory. */
  lemma {:induction false} DecodeEncode(m: seq<byte>, h: nat, ts: seq<Token>)
    requires ts != [] && AllSound(ts)
    requires h + |Encode(ts)| <= |m| && m[h..h + |Encode(ts)|] == Encode(ts)
    ensures Decode(m, h) == ts
    decreases |ts|
  {
    var t := ts[0];
    EncodeFirst(ts);
    if |ts| == 1 {
      DecodeLast(m, h, t);
    } else {
      SecondToken(m, h, t, OneToken(t, Size(t)), Encode(ts[1..]));
      DecodeEncode(m, h + 2 + Size(t), ts[1..]);
    }
  }

  /** Behind the bytes of a linked token stand those of its successors. */
  lemma SecondToken(m: seq<byte>, h: nat, t: Token, bytes: seq<byte>, later: seq<byte>)
    requires Sound(t) && bytes == OneToken(t, Size(t)) && h + |bytes| + |later| <= |m|
    requires m[h..h + |bytes| + |later|] == bytes + later
    ensures |bytes| == 2 + Size(t) && m[h + |bytes|..h + |bytes| + |later|] == later
    ensures Decode(m, h) == [t] + Decode(m, h + 2 + Size(t))
  {
    Slices(m, h, bytes, later);
    DecodeLinked(m, h, t, bytes, Size(t));
  }

  lemma EncodeFirst(ts: seq<Token>)
    requires ts != [] && AllSound(ts)
    ensures |ts| == 1 ==> Encode(ts) == OneToken(ts[0], 0) && ts == [ts[0]]
    ensures |ts| > 1 ==> Encode(ts) == OneToken(ts[0], Size(ts[0])) + Encode(ts[1..]) && ts == [ts[0]] + ts[1..]
  {
    if |ts| > 1 {
      EncodeAppend([ts[0]], ts[1..]);
      assert [ts[0]] + ts[1..] == ts;
    }
  }
}
