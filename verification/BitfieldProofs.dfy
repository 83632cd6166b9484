/** What the bit-field generator promises: the struct it prints lays out every bit of the word once, and the
    macros agree with that layout. */
module BitfieldProofs {
  import opened Arith
  import opened Bits
  import opened Bitfield

  // ---------- the layout of the printed struct ----------

  /** A member with the place that the C compiler gives it: behind all members before it. */
  datatype Slot = Slot(name: Name, offset: int, width: int)

  function Width(line: Line): int {
    if line.Member? then line.width else 0
  }

  function Total(lines: seq<Line>): int {
    if lines == [] then 0 else Total(lines[..|lines| - 1]) + Width(lines[|lines| - 1])
  }

  function Layout(lines: seq<Line>): seq<Slot> {
    if lines == [] then []
    else
      var init, line := lines[..|lines| - 1], lines[|lines| - 1];
      Layout(init) + if line.Member? then [Slot(line.name, Total(init), line.width)] else []
  }

  function NamedSlots(slots: seq<Slot>): seq<Slot> {
    if slots == [] then []
    else
      var last := slots[|slots| - 1];
      NamedSlots(slots[..|slots| - 1]) + if last.name.Named? then [last] else []
  }

  /** The slot for the bits that the document names. */
  function WantedSlot(name: string, spec: BitSpec): Slot {
    Slot(Named(name), First(spec), Last(spec) - First(spec) + 1)
  }

  /** The slots that the document asks for. */
  function Wanted(fields: seq<Field>): seq<Slot> {
    if fields == [] then []
    else
      var f := fields[|fields| - 1];
      Wanted(fields[..|fields| - 1])
      + if f.BitRange? then [WantedSlot(f.name, f.spec)] else []
  }

  /** The end of the last range. */
  function EndOf(fields: seq<Field>): nat {
    if fields == [] then 0
    else if fields[|fields| - 1].BitRange? then Last(fields[|fields| - 1].spec) + 1
    else EndOf(fields[..|fields| - 1])
  }

  /** Every range starts where the one before it ended or later. */
  predicate Ordered(fields: seq<Field>) {
    fields != [] ==>
      && Ordered(fields[..|fields| - 1])
      && (fields[|fields| - 1].BitRange? ==> EndOf(fields[..|fields| - 1]) <= First(fields[|fields| - 1].spec))
  }

  lemma LayoutSnoc(lines: seq<Line>, line: Line)
    ensures Total(lines + [line]) == Total(lines) + Width(line)
    ensures Layout(lines + [line]) ==
      Layout(lines) + if line.Member? then [Slot(line.name, Total(lines), line.width)] else []
  {
    assert (lines + [line])[..|lines|] == lines;
  }

  lemma NamedSnoc(slots: seq<Slot>, slot: Slot)
    ensures NamedSlots(slots + [slot]) == NamedSlots(slots) + if slot.name.Named? then [slot] else []
  {
    assert (slots + [slot])[..|slots|] == slots;
  }

  /** Macros take no place in the struct. */
  lemma {:induction false} DefinesTakeNoPlace(lines: seq<Line>, more: seq<Line>, all: seq<Line>)
    requires (forall l | l in more :: !l.Member?) && all == lines + more
    ensures Total(all) == Total(lines) && Layout(all) == Layout(lines)
    decreases |more|
  {
    if more == [] {
      assert all == lines;
    } else {
      var init, last := more[..|more| - 1], more[|more| - 1];
      assert all == lines + init + [last];
      assert last in more;
      DefinesTakeNoPlace(lines, init, lines + init);
      LayoutSnoc(lines + init, last);
      assert Layout(lines) + [] == Layout(lines);
    }
  }

  /** A gap brings the total up to the field and adds no named member. */
  lemma GapLayout(p: Progress, first: nat)
    requires Total(p.lines) == p.position
    ensures var q := FillGap(p, first);
      Total(q.lines) == q.position && NamedSlots(Layout(q.lines)) == NamedSlots(Layout(p.lines))
  {
    if first > p.position {
      var gap := Member(Reserved(p.reserved + 1), first - p.position);
      LayoutSnoc(p.lines, gap);
      NamedSnoc(Layout(p.lines), Slot(gap.name, p.position, gap.width));
      assert NamedSlots(Layout(p.lines)) + [] == NamedSlots(Layout(p.lines));
    }
  }

  lemma MemberLayout(q: Progress, name: string, end: nat)
    requires Total(q.lines) == q.position
    ensures var lines := AddMember(q, name, end).lines;
      && Total(lines) == end
      && NamedSlots(Layout(lines)) == NamedSlots(Layout(q.lines)) + [Slot(Named(name), q.position, end - q.position)]
  {
    LayoutSnoc(q.lines, Member(Named(name), end - q.position));
    NamedSnoc(Layout(q.lines), Slot(Named(name), q.position, end - q.position));
  }

  /** One field adds its gap and itself, and the position stays the total of the widths. */
  lemma FieldLayout(p: Progress, name: string, first: nat, end: nat)
    requires Total(p.lines) == p.position
    ensures var q := WithMember(p, name, first, end);
      && Total(q.lines) == end
      && NamedSlots(Layout(q.lines)) == NamedSlots(Layout(p.lines)) + [PlacedSlot(p.position, name, first, end)]
  {
    GapLayout(p, first);
    MemberLayout(FillGap(p, first), name, end);
  }

  lemma MacrosAreNoMembers(opt: Options, named: bool, name: string, first: nat, end: nat, nested: seq<Definition>)
    ensures forall l | l in Macros(opt, named, name, first, end, nested) :: !l.Member?
  {
  }

  lemma AfterFieldLayout(opt: Options, named: bool, p: Progress, name: string, spec: BitSpec,
                         nested: seq<Definition>)
    requires opt.createStruct && Total(p.lines) == p.position
    ensures var q := AfterField(opt, named, p, BitRange(name, spec, nested));
      && q.position == Total(q.lines) == Last(spec) + 1
      && NamedSlots(Layout(q.lines))
        == NamedSlots(Layout(p.lines)) + [PlacedSlot(p.position, name, First(spec), Last(spec) + 1)]
  {
    var (first, end) := Bit(spec);
    var more := Macros(opt, named, name, first, end, nested);
    var q := WithMember(p, name, first, end);
    FieldLayout(p, name, first, end);
    MacrosAreNoMembers(opt, named, name, first, end, nested);
    DefinesTakeNoPlace(q.lines, more, AfterField(opt, named, p, BitRange(name, spec, nested)).lines);
  }

  /** Where a field comes to lie when the position has been reached. */
  function PlacedSlot(position: int, name: string, first: nat, end: nat): Slot {
    var start := if first > position then first else position;
    Slot(Named(name), start, end - start)
  }

  ghost function Begin(): Progress { Progress(0, 0, []) }

  /** The invariant of the field loop. */
  ghost predicate InStep(p: Progress, fields: seq<Field>) {
    && p.position == Total(p.lines) == EndOf(fields)
    && |NamedSlots(Layout(p.lines))| == |Wanted(fields)|
    && (NamedSlots(Layout(p.lines)) == Wanted(fields) <==> Ordered(fields))
  }

  lemma WantedSnoc(fields: seq<Field>, name: string, spec: BitSpec, nested: seq<Definition>)
    ensures var all := fields + [BitRange(name, spec, nested)];
      && Wanted(all) == Wanted(fields) + [WantedSlot(name, spec)]
      && EndOf(all) == Last(spec) + 1
      && (Ordered(all) <==> Ordered(fields) && EndOf(fields) <= First(spec))
  {
    assert (fields + [BitRange(name, spec, nested)])[..|fields|] == fields;
  }

  lemma RangeStaysInStep(opt: Options, named: bool, p: Progress, fields: seq<Field>, name: string, spec: BitSpec,
                         nested: seq<Definition>)
    requires opt.createStruct && InStep(p, fields)
    ensures InStep(AfterField(opt, named, p, BitRange(name, spec, nested)), fields + [BitRange(name, spec, nested)])
  {
    WantedSnoc(fields, name, spec, nested);
    AfterFieldLayout(opt, named, p, name, spec, nested);
    SameSnoc(NamedSlots(Layout(p.lines)), PlacedSlot(p.position, name, First(spec), Last(spec) + 1),
             Wanted(fields), WantedSlot(name, spec));
  }

  lemma StaysInStep(opt: Options, named: bool, p: Progress, fields: seq<Field>, f: Field)
    requires opt.createStruct && InStep(p, fields)
    ensures InStep(AfterField(opt, named, p, f), fields + [f])
  {
    if f.BitRange? {
      RangeStaysInStep(opt, named, p, fields, f.name, f.spec, f.nested);
    } else {
      assert (fields + [f])[..|fields|] == fields;
      assert Wanted(fields) + [] == Wanted(fields);
    }
  }

  /** Layout conservation: after every field the widths printed so far add up to the bit position; and the
      named members are exactly the ranges asked for if and only if the ranges come in order. */
  lemma {:induction false} PositionIsTotal(opt: Options, named: bool, fields: seq<Field>)
    requires opt.createStruct
    ensures var p := AfterFields(opt, named, Begin(), fields);
      && p.position == Total(p.lines) == EndOf(fields)
      && |NamedSlots(Layout(p.lines))| == |Wanted(fields)|
      && (NamedSlots(Layout(p.lines)) == Wanted(fields) <==> Ordered(fields))
  {
    if fields == [] {
    } else {
      var init, f := fields[..|fields| - 1], fields[|fields| - 1];
      PositionIsTotal(opt, named, init);
      StaysInStep(opt, named, AfterFields(opt, named, Begin(), init), init, f);
      assert init + [f] == fields;
    }
  }

  lemma SameSnoc<T>(s: seq<T>, a: T, t: seq<T>, b: T)
    requires |s| == |t|
    ensures s + [a] == t + [b] <==> s == t && a == b
  {
    if s + [a] == t + [b] {
      assert s == (s + [a])[..|s|] && t == (t + [b])[..|t|];
      assert a == (s + [a])[|s|] && b == (t + [b])[|t|];
    }
  }

  /** The trailing member brings the total to the size of the word, and leaves the named members alone. */
  lemma TrailingFill(opt: Options, doc: Document)
    requires opt.createStruct
    ensures var p := AfterFields(opt, doc.named, Begin(), doc.fields); var lines := AfterDocument(opt, doc, []);
      && Total(lines) == (if EndOf(doc.fields) < doc.size && opt.fill then doc.size else EndOf(doc.fields))
      && NamedSlots(Layout(lines)) == NamedSlots(Layout(p.lines))
  {
    PositionIsTotal(opt, doc.named, doc.fields);
    var p := AfterFields(opt, doc.named, Begin(), doc.fields);
    RestLayout(opt, p, doc.size);
    DefinesTakeNoPlace(FillRest(opt, p, doc.size).lines, FlagsLine(doc), AfterDocument(opt, doc, []));
  }

  lemma RestLayout(opt: Options, p: Progress, size: int)
    requires Total(p.lines) == p.position
    ensures var lines := FillRest(opt, p, size).lines;
      && Total(lines) == (if p.position < size && opt.fill then size else p.position)
      && NamedSlots(Layout(lines)) == NamedSlots(Layout(p.lines))
  {
    var rest := Member(Reserved(p.reserved + 1), size - p.position);
    LayoutSnoc(p.lines, rest);
    NamedSnoc(Layout(p.lines), Slot(rest.name, p.position, rest.width));
    assert NamedSlots(Layout(p.lines)) + [] == NamedSlots(Layout(p.lines));
  }

  /** Earlier output does not matter: the lines of a document are put behind it. */
  lemma {:induction false} FieldsAppend(opt: Options, named: bool, p: Progress, fields: seq<Field>)
    ensures var q := AfterFields(opt, named, p.(lines := []), fields);
      AfterFields(opt, named, p, fields) == q.(lines := p.lines + q.lines)
  {
    if fields != [] {
      var init, f := fields[..|fields| - 1], fields[|fields| - 1];
      FieldsAppend(opt, named, p, init);
      FieldAppend(opt, named, p.lines, AfterFields(opt, named, p.(lines := []), init), f);
    } else {
      assert p.lines + [] == p.lines;
    }
  }

  lemma FieldAppend(opt: Options, named: bool, before: seq<Line>, p: Progress, f: Field)
    ensures var q := AfterField(opt, named, p, f);
      AfterField(opt, named, p.(lines := before + p.lines), f) == q.(lines := before + q.lines)
  {
  }

  lemma DocumentAppends(opt: Options, doc: Document, lines: seq<Line>)
    ensures AfterDocument(opt, doc, lines) == lines + AfterDocument(opt, doc, [])
  {
    FieldsAppend(opt, doc.named, Progress(0, 0, lines), doc.fields);
  }

  // ---------- the widths ----------

  predicate NonEmpty(fields: seq<Field>) {
    forall f | f in fields && f.BitRange? :: First(f.spec) <= Last(f.spec)
  }

  ghost predicate Widths(lines: seq<Line>) {
    forall l | l in lines :: Width(l) >= 0
  }

  /** A field that does not start before the position that has been reached adds no negative widths. */
  lemma FieldKeepsWidths(opt: Options, named: bool, p: Progress, name: string, spec: BitSpec, nested: seq<Definition>)
    requires opt.createStruct && Widths(p.lines) && p.position <= First(spec) <= Last(spec)
    ensures Widths(AfterField(opt, named, p, BitRange(name, spec, nested)).lines)
  {
    var (first, end) := Bit(spec);
    MacrosAreNoMembers(opt, named, name, first, end, nested);
    assert Widths(WithMember(p, name, first, end).lines);
  }

  lemma {:induction false} WidthsAreNatural(opt: Options, named: bool, fields: seq<Field>)
    requires opt.createStruct && Ordered(fields) && NonEmpty(fields)
    ensures Widths(AfterFields(opt, named, Begin(), fields).lines)
  {
    if fields == [] {
    } else {
      var init, f := fields[..|fields| - 1], fields[|fields| - 1];
      assert f in fields;
      WidthsAreNatural(opt, named, init);
      PositionIsTotal(opt, named, init);
      if f.BitRange? {
        FieldKeepsWidths(opt, named, AfterFields(opt, named, Begin(), init), f.name, f.spec, f.nested);
      }
    }
  }

  /** A word laid out completely: no member has a negative width, and the widths add up to the size. */
  lemma DocumentIsComplete(opt: Options, doc: Document)
    requires opt.createStruct && opt.fill
    requires Ordered(doc.fields) && NonEmpty(doc.fields) && EndOf(doc.fields) <= doc.size
    ensures Widths(AfterDocument(opt, doc, [])) && Total(AfterDocument(opt, doc, [])) == doc.size
  {
    var p := AfterFields(opt, doc.named, Begin(), doc.fields);
    WidthsAreNatural(opt, doc.named, doc.fields);
    PositionIsTotal(opt, doc.named, doc.fields);
    RestKeepsWidths(opt, p, doc.size, FlagsLine(doc));
    TrailingFill(opt, doc);
  }

  lemma RestKeepsWidths(opt: Options, p: Progress, size: int, more: seq<Line>)
    requires Widths(p.lines) && forall l | l in more :: !l.Member?
    ensures Widths(FillRest(opt, p, size).lines + more)
  {
  }

  // ---------- reading a word through the layout ----------

  /** The value of the member that occupies the slot. */
  function MemberValue(x: nat, slot: Slot): nat
    requires slot.offset >= 0 && slot.width >= 0
  {
    Shr(x, slot.offset) % Pow2(slot.width)
  }

  predicate InWord(slots: seq<Slot>) {
    forall s | s in slots :: s.offset >= 0 && s.width >= 0
  }

  /** The word put together again from its members. */
  function Reassembled(x: nat, slots: seq<Slot>): nat
    requires InWord(slots)
  {
    if slots == [] then 0
    else
      var last := slots[|slots| - 1];
      assert last in slots;
      Reassembled(x, slots[..|slots| - 1]) + Shl(MemberValue(x, last), last.offset)
  }

  lemma {:induction false} LayoutInWord(lines: seq<Line>)
    requires Widths(lines)
    ensures InWord(Layout(lines)) && Total(lines) >= 0
    ensures forall s | s in Layout(lines) :: s.offset + s.width <= Total(lines)
  {
    if lines == [] {
    } else {
      assert lines[|lines| - 1] in lines;
      LayoutInWord(lines[..|lines| - 1]);
    }
  }

  lemma ReassembledSnoc(x: nat, slots: seq<Slot>, slot: Slot)
    requires InWord(slots) && slot.offset >= 0 && slot.width >= 0
    ensures InWord(slots + [slot])
    ensures Reassembled(x, slots + [slot]) == Reassembled(x, slots) + Shl(MemberValue(x, slot), slot.offset)
  {
    assert (slots + [slot])[..|slots|] == slots;
  }

  /** The members of any struct with these widths hold the low bits of the word. */
  lemma {:induction false} LayoutHoldsLowBits(x: nat, lines: seq<Line>)
    requires Widths(lines)
    ensures InWord(Layout(lines)) && Total(lines) >= 0
    ensures Reassembled(x, Layout(lines)) == x % Pow2(Total(lines))
  {
    LayoutInWord(lines);
    if lines == [] {
      DivModUnique(x, 1, x, 0);
    } else {
      var init, line := lines[..|lines| - 1], lines[|lines| - 1];
      assert line in lines;
      LayoutInWord(init);
      LayoutHoldsLowBits(x, init);
      if line.Member? {
        ReassembledSnoc(x, Layout(init), Slot(line.name, Total(init), line.width));
        SplitLowBits(x, Total(init), line.width);
      } else {
        assert Layout(init) + [] == Layout(init);
      }
    }
  }

  /** The bit-field round trip: for ordered, non-empty ranges within the word and with trailing fill, every word is
      the sum of its members, named and reserved, each times two to its offset. */
  lemma BitfieldRoundTrip(opt: Options, doc: Document, x: nat)
    requires opt.createStruct && opt.fill
    requires Ordered(doc.fields) && NonEmpty(doc.fields) && EndOf(doc.fields) <= doc.size
    requires x < Pow2(doc.size)
    ensures var slots := Layout(AfterDocument(opt, doc, []));
      InWord(slots) && Reassembled(x, slots) == x
  {
    DocumentIsComplete(opt, doc);
    LayoutHoldsLowBits(x, AfterDocument(opt, doc, []));
    DivModUnique(x, Pow2(doc.size), 0, x);
  }

  // ---------- the macros ----------

  /** The GET macro: `((x) >> shift) & mask`. */
  function Get(x: nat, shift: nat, mask: nat): nat {
    And(Shr(x, shift), mask)
  }

  /** The bits of a slot, as a mask of the whole word. */
  function Flag(slot: Slot): nat
    requires slot.offset >= 0 && slot.width >= 0
  {
    Shl(Mask(slot.width), slot.offset)
  }

  /** All macros of a field speak of the same slot: the bit where it starts, its flag, its mask, and a GET
      that reads the member. */
  ghost predicate MacrosDescribe(opt: Options, name: string, slot: Slot, lines: seq<Line>)
    requires slot.offset >= 0 && slot.width >= 0
  {
    && (opt.defineBit ==> DefineBit(name, slot.offset) in lines)
    && (opt.defineFlag ==> DefineFlag(name, Flag(slot)) in lines)
    && (opt.defineMask ==> DefineMask(name, Mask(slot.width)) in lines)
    && (opt.defineGet ==> DefineGet(name, slot.offset, Mask(slot.width)) in lines)
    && (forall x: nat :: Get(x, slot.offset, Mask(slot.width)) == MemberValue(x, slot))
  }

  lemma {:induction false} GetReadsMember(x: nat, slot: Slot)
    requires slot.offset >= 0 && slot.width >= 0
    ensures Get(x, slot.offset, Mask(slot.width)) == MemberValue(x, slot)
  {
    AndMask(Shr(x, slot.offset), slot.width);
  }

  lemma {:induction false} NamedSlotsAreSlots(slots: seq<Slot>)
    ensures forall s | s in NamedSlots(slots) :: s in slots
  {
    if slots == [] {
    } else {
      assert slots[|slots| - 1] in slots;
      NamedSlotsAreSlots(slots[..|slots| - 1]);
    }
  }

  lemma {:induction false} WantedHasSlot(fields: seq<Field>, f: Field)
    requires f in fields && f.BitRange?
    ensures WantedSlot(f.name, f.spec) in Wanted(fields)
  {
    if fields[|fields| - 1] != f { WantedHasSlot(fields[..|fields| - 1], f); }
  }

  /** What has been printed stays printed. */
  lemma FieldKeepsLines(opt: Options, named: bool, p: Progress, f: Field, line: Line)
    requires line in p.lines || (f.BitRange? && named && line in Defines(opt, f.name, First(f.spec), Last(f.spec) + 1))
    ensures line in AfterField(opt, named, p, f).lines
  {
  }

  lemma {:induction false} DefinesArePrinted(opt: Options, fields: seq<Field>, f: Field, line: Line)
    requires f in fields && f.BitRange? && line in Defines(opt, f.name, First(f.spec), Last(f.spec) + 1)
    ensures line in AfterFields(opt, true, Begin(), fields).lines
  {
    var init, last := fields[..|fields| - 1], fields[|fields| - 1];
    if last != f { DefinesArePrinted(opt, init, f, line); }
    FieldKeepsLines(opt, true, AfterFields(opt, true, Begin(), init), last, line);
  }

  /** For ordered, non-empty ranges of a named bit-field, every field is a member at the place asked for, and its
      macros describe exactly that member; GET reads it out of any word. */
  lemma MacrosMatchLayout(opt: Options, doc: Document, f: Field)
    requires opt.createStruct && doc.named && Ordered(doc.fields) && NonEmpty(doc.fields)
    requires f in doc.fields && f.BitRange?
    ensures var slot := WantedSlot(f.name, f.spec); var lines := AfterDocument(opt, doc, []);
      && slot in Layout(lines)
      && slot.offset >= 0 && slot.width > 0
      && MacrosDescribe(opt, f.name, slot, lines)
  {
    FieldIsPlaced(opt, doc, f);
    MacrosArePrinted(opt, doc, f);
  }

  /** The member of a field lies where it was asked for. */
  lemma FieldIsPlaced(opt: Options, doc: Document, f: Field)
    requires opt.createStruct && Ordered(doc.fields) && f in doc.fields && f.BitRange?
    ensures WantedSlot(f.name, f.spec) in Layout(AfterDocument(opt, doc, []))
  {
    PositionIsTotal(opt, doc.named, doc.fields);
    TrailingFill(opt, doc);
    WantedHasSlot(doc.fields, f);
    NamedSlotsAreSlots(Layout(AfterDocument(opt, doc, [])));
  }

  /** The macros of a field are printed, and describe the range that it was asked for. */
  lemma MacrosArePrinted(opt: Options, doc: Document, f: Field)
    requires opt.createStruct && doc.named && f in doc.fields && f.BitRange? && First(f.spec) <= Last(f.spec)
    ensures var slot := WantedSlot(f.name, f.spec);
      MacrosDescribe(opt, f.name, slot, AfterDocument(opt, doc, []))
  {
    var slot := WantedSlot(f.name, f.spec);
    var lines := AfterDocument(opt, doc, []);
    forall line | line in Defines(opt, f.name, First(f.spec), Last(f.spec) + 1) ensures line in lines {
      DefinesArePrinted(opt, doc.fields, f, line);
    }
    forall x: nat ensures Get(x, slot.offset, Mask(slot.width)) == MemberValue(x, slot) {
      GetReadsMember(x, slot);
    }
    DefinesOf(opt, f.name, First(f.spec), Last(f.spec) + 1);
  }

  lemma DefinesOf(opt: Options, name: string, first: nat, end: nat)
    requires first <= end
    ensures var d := Defines(opt, name, first, end);
      && (opt.defineBit ==> DefineBit(name, first) in d)
      && (opt.defineFlag ==> DefineFlag(name, Shl(Mask(end - first), first)) in d)
      && (opt.defineMask ==> DefineMask(name, Mask(end - first)) in d)
      && (opt.defineGet ==> DefineGet(name, first, Mask(end - first)) in d)
  {
  }

  // ---------- the flags ----------

  function SumOfFlags(slots: seq<Slot>): nat
    requires InWord(slots)
  {
    if slots == [] then 0
    else
      var last := slots[|slots| - 1];
      assert last in slots;
      SumOfFlags(slots[..|slots| - 1]) + Flag(last)
  }

  lemma FlagOnTop(total: nat, width: nat)
    ensures Pow2(total) - 1 + Shl(Mask(width), total) == Pow2(total + width) - 1
  {
    PowSum(2, total, width);
    ProductOnTop(Pow2(total), Pow2(width));
  }

  lemma ProductOnTop(a: int, b: int)
    ensures a - 1 + (b - 1) * a == a * b - 1
  {
  }

  lemma {:induction false} FlagsAddUp(lines: seq<Line>)
    requires Widths(lines)
    ensures InWord(Layout(lines)) && Total(lines) >= 0
    ensures SumOfFlags(Layout(lines)) == Pow2(Total(lines)) - 1
  {
    LayoutInWord(lines);
    if lines != [] {
      var init, line := lines[..|lines| - 1], lines[|lines| - 1];
      assert line in lines;
      LayoutInWord(init);
      FlagsAddUp(init);
      if line.Member? {
        var slot := Slot(line.name, Total(init), line.width);
        assert (Layout(init) + [slot])[..|Layout(init)|] == Layout(init);
        FlagOnTop(Total(init), line.width);
      } else {
        assert Layout(init) + [] == Layout(init);
      }
    }
  }

  /** Slots come one behind the other. */
  lemma {:induction false} SlotsInOrder(lines: seq<Line>, a: nat, b: nat)
    requires Widths(lines) && a < b < |Layout(lines)|
    ensures Layout(lines)[a].offset + Layout(lines)[a].width <= Layout(lines)[b].offset
  {
    var init, line := lines[..|lines| - 1], lines[|lines| - 1];
    assert line in lines;
    if b < |Layout(init)| {
      SlotsInOrder(init, a, b);
    } else {
      LayoutInWord(init);
      assert Layout(init)[a] in Layout(init);
    }
  }

  lemma PowMonotone(m: nat, n: nat)
    requires m <= n
    ensures Pow2(m) <= Pow2(n)
  {
    PowSum(2, m, n - m);
    MulMonotone(Pow2(m), 1, Pow2(n - m));
  }

  lemma {:induction false} FlagsAreDisjoint(lines: seq<Line>, a: nat, b: nat)
    requires Widths(lines) && InWord(Layout(lines)) && a < b < |Layout(lines)|
    ensures And(Flag(Layout(lines)[b]), Flag(Layout(lines)[a])) == 0
  {
    var low, high := Layout(lines)[a], Layout(lines)[b];
    SlotsInOrder(lines, a, b);
    FlagOnTop(low.offset, low.width);
    PowMonotone(low.offset + low.width, high.offset);
    AndHighLow(Mask(high.width), high.offset, Flag(low));
  }

  /** The flags of all members, named and reserved, are disjoint and cover the word. */
  lemma FlagsPartitionWord(opt: Options, doc: Document)
    requires opt.createStruct && opt.fill
    requires Ordered(doc.fields) && NonEmpty(doc.fields) && EndOf(doc.fields) <= doc.size
    ensures var slots := Layout(AfterDocument(opt, doc, []));
      && InWord(slots)
      && SumOfFlags(slots) == Pow2(doc.size) - 1
      && forall a, b | 0 <= a < b < |slots| :: And(Flag(slots[b]), Flag(slots[a])) == 0
  {
    var lines := AfterDocument(opt, doc, []);
    DocumentIsComplete(opt, doc);
    FlagsAddUp(lines);
    forall a, b | 0 <= a < b < |Layout(lines)|
      ensures And(Flag(Layout(lines)[b]), Flag(Layout(lines)[a])) == 0
    {
      FlagsAreDisjoint(lines, a, b);
    }
  }

  // ---------- types ----------

  /** `make_size_type` finds a type exactly for whole bytes, and the type has exactly that many bits; but what
      a bit-field declares, the type without its array suffix, holds the word only for the four integer sizes. */
  lemma TypeHasSize(size: int)
    ensures MakeSizeType(size).Some? <==> size % 8 == 0
    ensures size % 8 == 0 ==> TypeBits(MakeSizeType(size).value) == size
    ensures size % 8 == 0 ==> (BaseBits(MakeSizeType(size).value) == size <==> size in {8, 16, 32, 64})
  {
  }
}
