/** Runs of the formatter: any sequence of macro appends and direct string appends. */
module TokenRuns {
  import opened Bytes
  import opened Tokens
  import opened TokenBuffer
  import opened ZyanNumber

  /** The macro with a letter case; the four string appends, of a view or of a short string; and the signed numbers. */
  datatype Op =
    | Macro(c: Constant, letterCase: LetterCase)
    | Direct(src: seq<byte>, letterCase: LetterCase, short: bool)
    | Number(n: Signed)

  predicate Legal(op: Op) {
    match op
    case Macro(c, _) => WellFormedConstant(c)
    case Direct(src, _, short) => 0 !in src && (short ==> 0 < |src| < 256)
    case Number(n) => WellFormedNumber(n)
  }

  predicate AllLegal(ops: seq<Op>) {
    forall op | op in ops :: Legal(op)
  }

  predicate Started(s: State) {
    s.TokenList? ==> s.tokens != []
  }

  function Do(s: State, op: Op): Step
    requires Started(s) && Legal(op)
  {
    match op
    case Macro(c, letterCase) => AppendConstant(s, c, letterCase)
    case Direct(src, letterCase, _) => AppendText(s, Strings.InCase(letterCase, src))
    case Number(n) => AppendNumber(s, n)
  }

  lemma DoKeepsMode(s: State, op: Op)
    requires Started(s) && Legal(op)
    ensures Started(Do(s, op).state) && (Do(s, op).state.TokenList? <==> s.TokenList?)
  {
  }

  /** The appends one after another; each is wrapped in `ZYAN_CHECK`, so the first failure ends the run. */
  function DoAll(s: State, ops: seq<Op>): Step
    requires Started(s) && AllLegal(ops)
    decreases |ops|
  {
    if ops == [] then Step(true, s)
    else
      assert ops[0] in ops;
      DoKeepsMode(s, ops[0]);
      var r := Do(s, ops[0]);
      if r.ok then DoAll(r.state, ops[1..]) else r
  }

  // ---------- safety ----------

  /** The literal with its terminator fits both the capacity left and an 8-bit offset. */
  predicate Safe(s: State) {
    match s
    case TokenList(tokens, room) => tokens != [] && AllSound(tokens) && Size(Last(tokens)) <= Min(room, 255)
    case Plain(text, room) => |text| + 1 <= room
  }

  /** Where the buffer ends, counted from the first token or character. */
  function Extent(s: State): nat
    requires s.TokenList? ==> s.tokens != [] && AllSound(s.tokens)
  {
    match s
    case TokenList(tokens, room) => LiteralOffset(tokens) + room
    case Plain(_, room) => room
  }

  function Used(s: State): nat
    requires s.TokenList? ==> s.tokens != [] && AllSound(s.tokens)
  {
    match s
    case TokenList(tokens, _) => |Encode(tokens)|
    case Plain(text, _) => |text| + 1
  }

  /** One append keeps the invariant and the end of the buffer. A failed one changes nothing, except that a number may
      leave its first parts behind. */
  lemma DoIsSafe(s: State, op: Op)
    requires Safe(s) && Legal(op)
    ensures Safe(Do(s, op).state) && Extent(Do(s, op).state) == Extent(s)
    ensures !Do(s, op).ok && !op.Number? ==> Do(s, op).state == s
  {
    match op {
      case Macro(c, letterCase) =>
        if s.TokenList? {
          AppendTokensIsSafe(s, c.tok, c.tokens);
        }
      case Direct(src, letterCase, _) =>
        Strings.CaseKeepsText(letterCase, src);
        GrowIsSafe(s, Strings.InCase(letterCase, src));
      case Number(n) =>
        NumberIsSafe(s, n);
    }
  }

  lemma NumberIsSafe(s: State, n: Signed)
    requires Safe(s) && WellFormedNumber(n)
    ensures var t := AppendNumber(s, n).state; Safe(t) && Extent(t) == Extent(s)
  {
    KeptIsText(Left(s), n.radix, n.value, n.padding, n.forceSign, n.prefix, n.suffix);
    GrowIsSafe(s, NumberKept(Left(s), n));
  }

  lemma GrowIsSafe(s: State, src: seq<byte>)
    requires Safe(s) && 0 !in src
    ensures |src| <= Left(s) ==> Safe(Grow(s, src)) && Extent(Grow(s, src)) == Extent(s)
  {
    if s.TokenList? {
      ExtendIsSafe(s.tokens, src, Min(s.room, 255));
    }
  }

  lemma AppendTokensIsSafe(s: State, tok: Predefined, new_: seq<Token>)
    requires s.TokenList? && Safe(s) && WellFormed(tok, new_)
    ensures var r := AppendTokens(s, new_); Safe(r.state) && Extent(r.state) == Extent(s)
  {
    EncodeAppend(s.tokens, new_);
    EncodedSize(s.tokens);
    EncodedSize(new_);
  }

  lemma ExtendIsSafe(ts: seq<Token>, src: seq<byte>, limit: nat)
    requires ts != [] && AllSound(ts) && 0 !in src && limit <= 255
    ensures Size(Last(ts)) + |src| <= limit ==>
      && AllSound(Extend(ts, src)) && Size(Last(Extend(ts, src))) <= limit
      && LiteralOffset(Extend(ts, src)) == LiteralOffset(ts)
  {
    assert Init(Extend(ts, src)) == Init(ts);
  }

  lemma UsedFits(s: State)
    requires Safe(s)
    ensures Used(s) <= Extent(s)
  {
    if s.TokenList? { EncodedSize(s.tokens); }
  }

  /** Over every run: the current literal fits, so that the 8-bit offset store loses nothing, the bytes used never
      pass the end of the buffer, and the end does not move. */
  lemma {:induction false} RunsAreSafe(s: State, ops: seq<Op>)
    requires Safe(s) && AllLegal(ops)
    ensures var t := DoAll(s, ops).state;
      Safe(t) && Extent(t) == Extent(s) && Used(t) <= Extent(t)
    decreases |ops|
  {
    if ops == [] {
      UsedFits(s);
    } else {
      assert ops[0] in ops;
      DoIsSafe(s, ops[0]);
      if Do(s, ops[0]).ok {
        RunsAreSafe(Do(s, ops[0]).state, ops[1..]);
      } else {
        UsedFits(Do(s, ops[0]).state);
      }
    }
  }

  // ---------- when appends fit ----------

  /** Predefined tokens are appended exactly if their bytes and one more fit between the bytes used and the end of the
      buffer; the room left is then the rest of the buffer behind the start of the last literal. */
  lemma {:induction false} TokensFitExactly(s: State, tok: Predefined, new_: seq<Token>)
    requires s.TokenList? && Safe(s) && WellFormed(tok, new_)
    ensures AllSound(s.tokens + new_) && Used(s) + |Encode(new_)| == |Encode(s.tokens + new_)|
    ensures var r := AppendTokens(s, new_);
      && (r.ok <==> Used(s) + |Encode(new_)| < Extent(s))
      && (r.ok ==> r.state == TokenList(s.tokens + new_, Extent(s) - LiteralOffset(s.tokens + new_)))
      && (!r.ok ==> r.state == s)
  {
    EncodeAppend(s.tokens, new_);
    EncodedSize(s.tokens);
    EncodedSize(new_);
    EncodedSize(s.tokens + new_);
  }

  /** Text is appended exactly if it fits the buffer and, in a token list, its literal an 8-bit offset. */
  lemma {:induction false} TextFitsExactly(s: State, src: seq<byte>)
    requires Safe(s)
    ensures var r := AppendText(s, src);
      && (r.ok <==> Used(s) + |src| <= Extent(s) && (s.TokenList? ==> |Last(s.tokens).text| + |src| < 255))
      && (!r.ok ==> r.state == s)
      && (r.ok && s.Plain? ==> r.state == Plain(s.text + src, s.room))
      && (r.ok && s.TokenList? ==>
            var n, last := |s.tokens| - 1, Last(s.tokens);
            r.state == TokenList(s.tokens[n := Token(last.kind, last.text + src)], s.room))
  {
    if s.TokenList? {
      EncodedSize(s.tokens);
      var n, last := |s.tokens| - 1, Last(s.tokens);
      assert Extend(s.tokens, src) == s.tokens[n := Token(last.kind, last.text + src)];
    }
  }

  /** All tokens that a run of macros brings along, and the bytes they take. */
  function Brought(ops: seq<Op>): seq<Token>
    requires forall op | op in ops :: op.Macro?
  {
    if ops == [] then []
    else
      assert ops[0] in ops;
      ops[0].c.tokens + Brought(ops[1..])
  }

  function BytesBrought(ops: seq<Op>): nat
    requires forall op | op in ops :: op.Macro?
  {
    if ops == [] then 0
    else
      assert ops[0] in ops;
      ops[0].c.tok.size + BytesBrought(ops[1..])
  }

  /** A run of macros on a token list succeeds exactly if everything it brings along fits with a byte to spare, and
      then it has appended all of it. */
  lemma {:induction false} MacroRunFitsExactly(s: State, ops: seq<Op>)
    requires s.TokenList? && Safe(s) && AllLegal(ops) && forall op | op in ops :: op.Macro?
    ensures var r := DoAll(s, ops);
      && (r.ok <==> ops == [] || Used(s) + BytesBrought(ops) < Extent(s))
      && (r.ok ==> r.state.TokenList? && r.state.tokens == s.tokens + Brought(ops))
    decreases |ops|
  {
    if ops == [] {
      assert s.tokens + [] == s.tokens;
    } else {
      var op := ops[0];
      assert op in ops;
      MacroFitsExactly(s, op);
      if Do(s, op).ok {
        MacroRunFitsExactly(Do(s, op).state, ops[1..]);
        assert s.tokens + op.c.tokens + Brought(ops[1..]) == s.tokens + (op.c.tokens + Brought(ops[1..]));
      }
    }
  }

  lemma {:induction false} MacroFitsExactly(s: State, op: Op)
    requires s.TokenList? && Safe(s) && Legal(op) && op.Macro?
    ensures var r := Do(s, op);
      && (r.ok <==> Used(s) + op.c.tok.size < Extent(s))
      && (r.ok ==> r.state.TokenList? && Safe(r.state) && r.state.tokens == s.tokens + op.c.tokens
                   && Used(r.state) == Used(s) + op.c.tok.size && Extent(r.state) == Extent(s))
  {
    TokensFitExactly(s, op.c.tok, op.c.tokens);
    AppendTokensIsSafe(s, op.c.tok, op.c.tokens);
  }

  // ---------- the two output modes ----------

  /** All literals of a token list, one after another. */
  function Literals(ts: seq<Token>): seq<byte> {
    if ts == [] then [] else Literals(Init(ts)) + Last(ts).text
  }

  lemma {:induction false} LiteralsAppend(a: seq<Token>, b: seq<Token>)
    ensures Literals(a + b) == Literals(a) + Literals(b)
    decreases |b|
  {
    if b == [] {
      assert a + b == a;
    } else {
      LiteralsAppend(a, Init(b));
      assert Init(a + b) == a + Init(b) && Last(a + b) == Last(b);
      SameThree(Literals(a), Literals(Init(b)), Last(b).text);
    }
  }

  lemma SameThree(a: seq<byte>, b: seq<byte>, c: seq<byte>)
    ensures a + b + c == a + (b + c)
  {
  }

  lemma LiteralsExtend(ts: seq<Token>, src: seq<byte>)
    requires ts != []
    ensures Literals(Extend(ts, src)) == Literals(ts) + src
  {
    assert Init(Extend(ts, src)) == Init(ts);
  }

  /** The text that a state shows. */
  function Shown(s: State): seq<byte> {
    match s
    case TokenList(tokens, _) => Literals(tokens)
    case Plain(text, _) => text
  }

  /** The text that an append adds, in the mode of the state. */
  function Added(s: State, op: Op): seq<byte>
    requires Legal(op)
  {
    match op
    case Macro(c, letterCase) => if s.TokenList? then Literals(c.tokens) else Strings.InCase(letterCase, c.text)
    case Direct(src, letterCase, _) => Strings.InCase(letterCase, src)
    case Number(n) => NumberText(n)
  }

  lemma {:induction false} DoShows(s: State, op: Op)
    requires Started(s) && Legal(op) && Do(s, op).ok
    ensures Shown(Do(s, op).state) == Shown(s) + Added(s, op)
  {
    if s.TokenList? {
      if op.Macro? {
        LiteralsAppend(s.tokens, op.c.tokens);
      } else {
        LiteralsExtend(s.tokens, Added(s, op));
      }
    }
  }

  /** `TOK_x` carries the text that the plain mode appends for `STR_x`. */
  predicate SameText(op: Op) {
    op.Macro? ==> Strings.InCase(op.letterCase, op.c.text) == Literals(op.c.tokens)
  }

  /** The two modes agree: if every constant carries the same text in both forms, then after any run that succeeds in
      both modes the token literals joined together are the plain string. */
  lemma {:induction false} ModesAgree(t: State, p: State, ops: seq<Op>)
    requires Started(t) && t.TokenList? && p.Plain? && AllLegal(ops)
    requires Shown(t) == Shown(p)
    requires forall op | op in ops :: SameText(op)
    requires DoAll(t, ops).ok && DoAll(p, ops).ok
    ensures Shown(DoAll(t, ops).state) == Shown(DoAll(p, ops).state)
    decreases |ops|
  {
    if ops == [] {
    } else {
      var op := ops[0];
      assert op in ops;
      DoKeepsMode(t, op);
      DoKeepsMode(p, op);
      DoShows(t, op);
      DoShows(p, op);
      ModesAgree(Do(t, op).state, Do(p, op).state, ops[1..]);
    }
  }

  /** For a single append that succeeds in both modes the condition is exact; so the letter case of
      `ZYDIS_BUFFER_APPEND_CASE` makes the modes differ as soon as it changes a letter. */
  lemma ModesAgreeExactlyOnSameText(t: State, p: State, op: Op)
    requires Started(t) && t.TokenList? && p.Plain? && Legal(op)
    requires Shown(t) == Shown(p)
    requires Do(t, op).ok && Do(p, op).ok
    ensures Shown(Do(t, op).state) == Shown(Do(p, op).state) <==> SameText(op)
  {
    DoShows(t, op);
    DoShows(p, op);
    var a, b := Added(t, op), Added(p, op);
    if Shown(t) + a == Shown(p) + b {
      assert a == (Shown(t) + a)[|Shown(t)|..];
      assert b == (Shown(p) + b)[|Shown(p)|..];
    }
  }

  /** For instance, an "a" in capitals, appended to two empty buffers. */
  lemma LetterCaseSplitsModes()
    ensures var c := Constant([97], Predefined(4, 2, [1, 0, 97, 0]), [Token(1, [97])]);
      var op, t, p := Macro(c, Strings.Upper), TokenList([Token(1, [])], 100), Plain([], 100);
      && Legal(op) && Safe(t) && Safe(p) && Shown(t) == Shown(p)
      && Do(t, op).ok && Do(p, op).ok && Shown(Do(t, op).state) == [97] && Shown(Do(p, op).state) == [65]
  {
    var c := Constant([97], Predefined(4, 2, [1, 0, 97, 0]), [Token(1, [97])]);
    var op, t, p := Macro(c, Strings.Upper), TokenList([Token(1, [])], 100), Plain([], 100);
    LettersOfOne(Token(1, [97]));
    LettersOfOne(Token(1, []));
    assert Encode([Token(1, [97])]) == [1, 0, 97, 0];
    assert Strings.InCase(Strings.Upper, [97]) == [65];
    DoShows(t, op);
    DoShows(p, op);
  }

  lemma LettersOfOne(t: Token)
    ensures Init([t]) == [] && Literals([t]) == t.text
  {
    assert Literals([t]) == Literals([]) + t.text;
  }

  // ---------- agreement all along a run ----------

  lemma PrefixIsLegal(ops: seq<Op>, k: nat)
    requires AllLegal(ops) && k <= |ops|
    ensures AllLegal(ops[..k])
  {
    assert forall op | op in ops[..k] :: op in ops;
  }

  /** After the first k appends both modes show the same text. */
  ghost predicate AgreeAfter(t: State, p: State, ops: seq<Op>, k: nat)
    requires Started(t) && Started(p) && AllLegal(ops) && k <= |ops|
  {
    PrefixIsLegal(ops, k);
    Shown(DoAll(t, ops[..k]).state) == Shown(DoAll(p, ops[..k]).state)
  }

  lemma AgreeLater(t: State, p: State, ops: seq<Op>, k: nat)
    requires Started(t) && Started(p) && AllLegal(ops) && 0 < k <= |ops|
    requires Do(t, ops[0]).ok && Do(p, ops[0]).ok
    ensures AllLegal(ops[1..]) && Started(Do(t, ops[0]).state) && Started(Do(p, ops[0]).state)
    ensures AgreeAfter(t, p, ops, k) <==> AgreeAfter(Do(t, ops[0]).state, Do(p, ops[0]).state, ops[1..], k - 1)
  {
    assert forall op | op in ops[1..] :: op in ops;
    DoKeepsMode(t, ops[0]);
    DoKeepsMode(p, ops[0]);
    PrefixIsLegal(ops, k);
    assert ops[..k][1..] == ops[1..][..k - 1];
  }

  /** Along a run that succeeds in both modes the shown texts are equal after every append if and only if every
      append has the same text in both modes. */
  lemma {:induction false} ModesAgreeThroughout(t: State, p: State, ops: seq<Op>)
    requires Started(t) && t.TokenList? && p.Plain? && AllLegal(ops)
    requires Shown(t) == Shown(p)
    requires DoAll(t, ops).ok && DoAll(p, ops).ok
    ensures (forall k | 0 <= k <= |ops| :: AgreeAfter(t, p, ops, k)) <==> (forall op | op in ops :: SameText(op))
    decreases |ops|
  {
    if ops == [] {
      assert AgreeAfter(t, p, ops, 0);
    } else {
      var op := ops[0];
      assert op in ops;
      var t', p' := Do(t, op).state, Do(p, op).state;
      ModesAgreeExactlyOnSameText(t, p, op);
      DoKeepsMode(t, op);
      DoKeepsMode(p, op);
      forall k | 0 < k <= |ops| ensures AgreeAfter(t, p, ops, k) <==> AgreeAfter(t', p', ops[1..], k - 1) {
        AgreeLater(t, p, ops, k);
      }
      assert AgreeAfter(t, p, ops, 0);
      assert AgreeAfter(t', p', ops[1..], 0) <==> Shown(t') == Shown(p');
      if Shown(t') == Shown(p') {
        ModesAgreeThroughout(t', p', ops[1..]);
        AllFromRest(ops);
        ShiftedAgreement(t, p, t', p', ops);
      } else {
        assert !AgreeAfter(t, p, ops, 1);
      }
    }
  }

  lemma AllFromRest(ops: seq<Op>)
    requires ops != []
    ensures (forall op | op in ops :: SameText(op)) <==> SameText(ops[0]) && forall op | op in ops[1..] :: SameText(op)
  {
    assert ops == [ops[0]] + ops[1..];
  }

  lemma ShiftedAgreement(t: State, p: State, t': State, p': State, ops: seq<Op>)
    requires Started(t) && Started(p) && Started(t') && Started(p') && AllLegal(ops) && ops != [] && AllLegal(ops[1..])
    requires AgreeAfter(t, p, ops, 0)
    requires forall k | 0 < k <= |ops| :: AgreeAfter(t, p, ops, k) <==> AgreeAfter(t', p', ops[1..], k - 1)
    ensures (forall k | 0 <= k <= |ops| :: AgreeAfter(t, p, ops, k))
      <==> (forall k | 0 <= k < |ops| :: AgreeAfter(t', p', ops[1..], k))
  {
    if forall k | 0 <= k <= |ops| :: AgreeAfter(t, p, ops, k) {
      forall k | 0 <= k < |ops| ensures AgreeAfter(t', p', ops[1..], k) {
        assert AgreeAfter(t, p, ops, k + 1);
      }
    }
  }

  // ---------- runs on the buffer ----------

  /** One append, by the method that does it. */
  method Perform(b: FormatterBuffer, op: Op) returns (ok: bool)
    requires b.Valid() && Legal(op)
    modifies b, b.str, b.mem
    ensures b.Valid() && Step(ok, b.Abstract()) == Do(old(b.Abstract()), op)
  {
    match op {
      case Macro(c, letterCase) =>
        if letterCase == Strings.Default {
          ok := b.Append(c);
        } else {
          ok := b.AppendInCase(c, letterCase);
        }
      case Direct(src, letterCase, short) =>
        if letterCase == Strings.Default {
          ok := PerformDirect(b, src, short);
        } else if short {
          ok := b.AppendShortStringCase(src, letterCase);
        } else {
          ok := b.AppendStringCase(src, letterCase);
        }
      case Number(n) =>
        ok := b.AppendSigned(n);
    }
  }

  method PerformDirect(b: FormatterBuffer, src: seq<byte>, short: bool) returns (ok: bool)
    requires b.Valid() && 0 !in src && (short ==> 0 < |src| < 256)
    modifies b, b.str, b.mem
    ensures b.Valid()
    ensures Step(ok, b.Abstract()) == AppendText(old(b.Abstract()), Strings.InCase(Strings.Default, src))
  {
    assert Strings.InCase(Strings.Default, src) == src;
    if short {
      ok := b.AppendShortString(src);
    } else {
      ok := b.AppendString(src);
    }
  }

  /** A run on the buffer goes through the states of the abstract run, and in the end its memory holds exactly the
      tokens, or the text, of the last of them. */
  method PerformAll(b: FormatterBuffer, ops: seq<Op>) returns (ok: bool)
    requires b.Valid() && AllLegal(ops)
    modifies b, b.str, b.mem
    ensures b.Valid() && Step(ok, b.Abstract()) == DoAll(old(b.Abstract()), ops)
    ensures b.isTokenList ==> Decode(b.mem[..], b.first) == DoAll(old(b.Abstract()), ops).state.tokens
    ensures !b.isTokenList ==> b.str.Text() == DoAll(old(b.Abstract()), ops).state.text
  {
    ok := true;
    for i := 0 to |ops|
      invariant b.Valid() && AllLegal(ops[i..])
      invariant DoAll(old(b.Abstract()), ops) == DoAll(b.Abstract(), ops[i..])
    {
      assert ops[i] in ops[i..] && ops[i..][1..] == ops[i + 1..];
      ok := Perform(b, ops[i]);
      if !ok {
        break;
      }
    }
    if b.isTokenList { b.DecodesToTokens(); }
  }

  /** The same run in both modes: if both succeed and every append has the same text in both, the literals of the token
      list, read back from memory and joined, are the plain string. */
  method PerformInBothModes(t: FormatterBuffer, p: FormatterBuffer, ops: seq<Op>)
    returns (okTokens: bool, okPlain: bool)
    requires t.Valid() && p.Valid() && t.isTokenList && !p.isTokenList && AllLegal(ops)
    requires t != p && t.str != p.str && t.mem != p.mem
    requires Shown(t.Abstract()) == Shown(p.Abstract())
    modifies t, t.str, t.mem, p, p.str, p.mem
    ensures t.Valid() && p.Valid()
    ensures okTokens && okPlain && (forall op | op in ops :: SameText(op)) ==>
      Literals(Decode(t.mem[..], t.first)) == p.str.Text()
  {
    ghost var ts, ps := t.Abstract(), p.Abstract();
    okTokens := PerformAll(t, ops);
    okPlain := PerformAll(p, ops);
    t.DecodesToTokens();
    if okTokens && okPlain && forall op | op in ops :: SameText(op) {
      ModesAgree(ts, ps, ops);
    }
  }
}
