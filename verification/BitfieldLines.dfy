/** Exactly which lines a bit-field document prints: the macros, bit by bit, and the reserved members. */
module BitfieldLines {
  import opened Bits
  import opened Bitfield
  import opened BitfieldProofs

  // ---------- the bits that macros speak of ----------

  /** The flag of a field has exactly the bits that the document names. */
  lemma FlagNamesBits(spec: BitSpec, k: nat)
    requires First(spec) <= Last(spec)
    ensures Pow2(First(spec)) <= Pow2(Last(spec) + 1)
    ensures HasBit(Pow2(Last(spec) + 1) - Pow2(First(spec)), k) <==> Names(spec, k)
  {
    var first, width := First(spec), Last(spec) - First(spec) + 1;
    FlagOnTop(first, width);
    PowMonotone(first, first + width);
    ShlBits(Mask(width), first, k);
    if k >= first { MaskBits(width, k - first); }
  }

  /** GET moves the bits that the document names, and no others, down to bit 0. */
  lemma GetMovesBits(spec: BitSpec, x: nat, k: nat)
    requires First(spec) <= Last(spec)
    ensures HasBit(Get(x, First(spec), Pow2(Last(spec) + 1 - First(spec)) - 1), k)
      <==> Names(spec, First(spec) + k) && HasBit(x, First(spec) + k)
  {
    var width := Last(spec) + 1 - First(spec);
    AndBits(Shr(x, First(spec)), Mask(width), k);
    MaskBits(width, k);
    ShrBits(x, First(spec), k);
  }

  // ---------- the lines beside the members ----------

  /** The lines that are no members. */
  function Beside(lines: seq<Line>): seq<Line> {
    if lines == [] then []
    else
      var last := lines[|lines| - 1];
      Beside(lines[..|lines| - 1]) + if last.Member? then [] else [last]
  }

  /** The options ask for a macro of this kind. */
  predicate AskedFor(opt: Options, line: Line) {
    match line
    case DefineBit(_, _) => opt.defineBit
    case DefineFlag(_, _) => opt.defineFlag
    case DefineMask(_, _) => opt.defineMask
    case DefineGet(_, _, _) => opt.defineGet
    case _ => true
  }

  function Asked(opt: Options, lines: seq<Line>): seq<Line> {
    if lines == [] then []
    else
      var last := lines[|lines| - 1];
      Asked(opt, lines[..|lines| - 1]) + if AskedFor(opt, last) then [last] else []
  }

  /** The four macros for the bits from the first to the last; those with a mask need a range that does not run
      backwards. */
  function AllMacros(name: string, first: nat, last: nat): seq<Line> {
    if first <= last + 1 then
      PowMonotone(first, last + 1);
      var mask := Pow2(last + 1 - first) - 1;
      [DefineBit(name, first), DefineFlag(name, Pow2(last + 1) - Pow2(first)), DefineMask(name, mask),
       DefineGet(name, first, mask)]
    else [DefineBit(name, first)]
  }

  function WrittenFor(opt: Options, named: bool, f: Field): seq<Line>
    requires f.BitRange?
  {
    (if named then Asked(opt, AllMacros(f.name, First(f.spec), Last(f.spec))) else []) + NestedLines(f.nested)
  }

  /** What is to be printed beside the members: for every field of a named bit-field the macros asked for, and the
      definitions nested in the field. */
  function Written(opt: Options, named: bool, fields: seq<Field>): seq<Line> {
    if fields == [] then []
    else
      var f := fields[|fields| - 1];
      Written(opt, named, fields[..|fields| - 1]) + if f.BitRange? then WrittenFor(opt, named, f) else []
  }

  lemma AskedSnoc(opt: Options, lines: seq<Line>, line: Line)
    ensures Asked(opt, lines + [line]) == Asked(opt, lines) + if AskedFor(opt, line) then [line] else []
  {
    assert (lines + [line])[..|lines|] == lines;
  }

  /** The macros printed for a field. */
  lemma {:induction false} DefinesAreAsked(opt: Options, name: string, first: nat, last: nat)
    requires NeedsMask(opt) ==> first <= last + 1
    ensures Defines(opt, name, first, last + 1) == Asked(opt, AllMacros(name, first, last))
  {
    var bit := DefineBit(name, first);
    AskedSnoc(opt, [], bit);
    assert [] + [bit] == [bit];
    if first <= last + 1 {
      var width := last + 1 - first;
      FlagOnTop(first, width);
      PowMonotone(first, last + 1);
      AskedFour(opt, bit, DefineFlag(name, Pow2(last + 1) - Pow2(first)), DefineMask(name, Mask(width)),
                DefineGet(name, first, Mask(width)));
    }
  }

  lemma {:induction false} AskedFour(opt: Options, a: Line, b: Line, c: Line, d: Line)
    ensures Asked(opt, [a, b, c, d]) == (if AskedFor(opt, a) then [a] else []) + (if AskedFor(opt, b) then [b] else [])
      + (if AskedFor(opt, c) then [c] else []) + (if AskedFor(opt, d) then [d] else [])
  {
    AskedSnoc(opt, [], a);
    AskedSnoc(opt, [a], b);
    AskedSnoc(opt, [a, b], c);
    AskedSnoc(opt, [a, b, c], d);
    assert [] + [a] == [a] && [a] + [b] == [a, b] && [a, b] + [c] == [a, b, c] && [a, b, c] + [d] == [a, b, c, d];
  }

  /** Lines without members come behind the others as they are. */
  lemma {:induction false} BesideAppend(lines: seq<Line>, more: seq<Line>)
    requires forall l | l in more :: !l.Member?
    ensures Beside(lines + more) == Beside(lines) + more
    decreases |more|
  {
    if more == [] {
      assert lines + more == lines;
    } else {
      var init, last := more[..|more| - 1], more[|more| - 1];
      assert last in more && (lines + more)[..|lines + more| - 1] == lines + init;
      BesideAppend(lines, init);
      assert Beside(lines) + init + [last] == Beside(lines) + more;
    }
  }

  lemma BesideMember(lines: seq<Line>, member: Line)
    requires member.Member?
    ensures Beside(lines + [member]) == Beside(lines)
  {
    assert (lines + [member])[..|lines|] == lines;
  }

  /** The member of a field and the gap in front of it are not seen. */
  lemma {:induction false} MembersBeside(opt: Options, p: Progress, name: string, first: nat, end: nat)
    ensures Beside(WithMember(p, name, first, end).lines) == Beside(p.lines)
  {
    var q := FillGap(p, first);
    BesideMember(p.lines, Member(Reserved(p.reserved + 1), first - p.position));
    BesideMember(q.lines, Member(Named(name), end - q.position));
  }

  lemma {:induction false} MacrosAreWritten(opt: Options, named: bool, f: Field)
    requires f.BitRange? && (named && NeedsMask(opt) ==> First(f.spec) <= Last(f.spec) + 1)
    ensures Macros(opt, named, f.name, Bit(f.spec).0, Bit(f.spec).1, f.nested) == WrittenFor(opt, named, f)
    ensures forall l | l in WrittenFor(opt, named, f) :: !l.Member?
  {
    if named { DefinesAreAsked(opt, f.name, First(f.spec), Last(f.spec)); }
    MacrosAreNoMembers(opt, named, f.name, First(f.spec), Last(f.spec) + 1, f.nested);
  }

  /** What is written for a field comes behind its member, if there is one. */
  lemma {:induction false} FieldBeside(opt: Options, named: bool, p: Progress, f: Field, more: seq<Line>)
    requires f.BitRange? && more == Macros(opt, named, f.name, Bit(f.spec).0, Bit(f.spec).1, f.nested)
    requires forall l | l in more :: !l.Member?
    ensures var q := AfterField(opt, named, p, f);
      && Beside(q.lines) == Beside(p.lines) + more
      && (!opt.createStruct ==> q.lines == p.lines + more)
  {
    if opt.createStruct {
      MembersBeside(opt, p, f.name, Bit(f.spec).0, Bit(f.spec).1);
      BesideAppend(WithMember(p, f.name, Bit(f.spec).0, Bit(f.spec).1).lines, more);
    } else {
      BesideAppend(p.lines, more);
    }
  }

  lemma {:induction false} FieldsBeside(opt: Options, named: bool, fields: seq<Field>)
    requires named && NeedsMask(opt) ==> Forward(fields)
    ensures Beside(AfterFields(opt, named, Begin(), fields).lines) == Written(opt, named, fields)
    ensures !opt.createStruct ==> AfterFields(opt, named, Begin(), fields).lines == Written(opt, named, fields)
  {
    if fields == [] {
    } else {
      var init, f := fields[..|fields| - 1], fields[|fields| - 1];
      assert f in fields;
      FieldsBeside(opt, named, init);
      if f.BitRange? {
        MacrosAreWritten(opt, named, f);
        FieldBeside(opt, named, AfterFields(opt, named, Begin(), init), f, WrittenFor(opt, named, f));
      }
    }
  }

  lemma {:induction false} RestBeside(opt: Options, p: Progress, size: int, more: seq<Line>)
    requires forall l | l in more :: !l.Member?
    ensures Beside(FillRest(opt, p, size).lines + more) == Beside(p.lines) + more
  {
    BesideMember(p.lines, Member(Reserved(p.reserved + 1), size - p.position));
    BesideAppend(FillRest(opt, p, size).lines, more);
  }

  /** The line for the whole word. */
  function WholeWord(doc: Document): seq<Line> {
    if doc.named && doc.size % 8 == 0 then [Flags(if doc.size in {8, 16, 32, 64} then doc.size else 8)] else []
  }

  /** Beside its members a document prints exactly the macros asked for, field by field, with the nested definitions,
      and in the struct form of a named bit-field the member for the whole word; without the struct form it prints
      no members. */
  lemma {:induction false} MacroLines(opt: Options, doc: Document)
    requires doc.named && NeedsMask(opt) ==> Forward(doc.fields)
    ensures var lines := AfterDocument(opt, doc, []); var written := Written(opt, doc.named, doc.fields);
      if opt.createStruct then Beside(lines) == written + WholeWord(doc) else lines == written
  {
    FieldsBeside(opt, doc.named, doc.fields);
    if opt.createStruct {
      RestBeside(opt, AfterFields(opt, doc.named, Begin(), doc.fields), doc.size, FlagsLine(doc));
    }
  }

  // ---------- the reserved members ----------

  /** The numbers of the reserved members. */
  function ReservedNumbers(slots: seq<Slot>): seq<nat> {
    if slots == [] then []
    else
      var last := slots[|slots| - 1];
      ReservedNumbers(slots[..|slots| - 1]) + if last.name.Reserved? then [last.name.index] else []
  }

  /** One, two, three and so on. */
  predicate CountsUp(numbers: seq<nat>) {
    forall i | 0 <= i < |numbers| :: numbers[i] == i + 1
  }

  /** Reserved members are not empty, and there is no other one directly behind one. */
  predicate GapsAreWhole(slots: seq<Slot>) {
    forall i | 0 <= i < |slots| && slots[i].name.Reserved? ::
      slots[i].width > 0 && (i + 1 < |slots| ==> slots[i + 1].name.Named?)
  }

  predicate EndsNamed(slots: seq<Slot>) {
    slots != [] ==> slots[|slots| - 1].name.Named?
  }

  /** There are n reserved members, counted and whole. */
  ghost predicate Counted(slots: seq<Slot>, n: nat) {
    |ReservedNumbers(slots)| == n && CountsUp(ReservedNumbers(slots)) && GapsAreWhole(slots)
  }

  lemma {:induction false} GapIsCounted(slots: seq<Slot>, n: nat, offset: int, width: int)
    requires Counted(slots, n) && EndsNamed(slots) && width > 0
    ensures Counted(slots + [Slot(Reserved(n + 1), offset, width)], n + 1)
  {
    var slot := Slot(Reserved(n + 1), offset, width);
    assert (slots + [slot])[..|slots|] == slots;
  }

  lemma {:induction false} MemberIsCounted(slots: seq<Slot>, n: nat, name: string, offset: int, width: int)
    requires Counted(slots, n)
    ensures Counted(slots + [Slot(Named(name), offset, width)], n)
    ensures EndsNamed(slots + [Slot(Named(name), offset, width)])
  {
    var slot := Slot(Named(name), offset, width);
    assert (slots + [slot])[..|slots|] == slots;
    assert ReservedNumbers(slots) + [] == ReservedNumbers(slots);
  }

  lemma {:induction false} FilledGapIsCounted(p: Progress, first: nat)
    requires Counted(Layout(p.lines), p.reserved) && EndsNamed(Layout(p.lines))
    ensures var q := FillGap(p, first); Counted(Layout(q.lines), q.reserved)
  {
    var gap := first - p.position;
    if gap > 0 {
      LayoutSnoc(p.lines, Member(Reserved(p.reserved + 1), gap));
      GapIsCounted(Layout(p.lines), p.reserved, Total(p.lines), gap);
    }
  }

  lemma {:induction false} PlacesAreCounted(q: Progress, name: string, end: nat)
    requires Counted(Layout(q.lines), q.reserved)
    ensures var r := AddMember(q, name, end);
      Counted(Layout(r.lines), r.reserved) && EndsNamed(Layout(r.lines))
  {
    LayoutSnoc(q.lines, Member(Named(name), end - q.position));
    MemberIsCounted(Layout(q.lines), q.reserved, name, Total(q.lines), end - q.position);
  }

  lemma {:induction false} FieldIsCounted(opt: Options, named: bool, p: Progress, f: Field, more: seq<Line>)
    requires opt.createStruct && f.BitRange? && Counted(Layout(p.lines), p.reserved) && EndsNamed(Layout(p.lines))
    requires more == Macros(opt, named, f.name, Bit(f.spec).0, Bit(f.spec).1, f.nested)
    requires forall l | l in more :: !l.Member?
    ensures var q := AfterField(opt, named, p, f);
      Counted(Layout(q.lines), q.reserved) && EndsNamed(Layout(q.lines))
  {
    var q := WithMember(p, f.name, Bit(f.spec).0, Bit(f.spec).1);
    FilledGapIsCounted(p, Bit(f.spec).0);
    PlacesAreCounted(FillGap(p, Bit(f.spec).0), f.name, Bit(f.spec).1);
    DefinesTakeNoPlace(q.lines, more, q.lines + more);
  }

  lemma {:induction false} FieldsAreCounted(opt: Options, named: bool, fields: seq<Field>)
    requires opt.createStruct
    ensures var p := AfterFields(opt, named, Begin(), fields);
      Counted(Layout(p.lines), p.reserved) && EndsNamed(Layout(p.lines))
  {
    if fields == [] {
    } else {
      var init, f := fields[..|fields| - 1], fields[|fields| - 1];
      FieldsAreCounted(opt, named, init);
      if f.BitRange? {
        var more := Macros(opt, named, f.name, Bit(f.spec).0, Bit(f.spec).1, f.nested);
        MacrosAreNoMembers(opt, named, f.name, Bit(f.spec).0, Bit(f.spec).1, f.nested);
        FieldIsCounted(opt, named, AfterFields(opt, named, Begin(), init), f, more);
      }
    }
  }

  lemma {:induction false} RestIsCounted(opt: Options, p: Progress, size: int)
    requires Counted(Layout(p.lines), p.reserved) && EndsNamed(Layout(p.lines))
    ensures var q := FillRest(opt, p, size); Counted(Layout(q.lines), q.reserved)
  {
    var rest := size - p.position;
    if rest > 0 {
      LayoutSnoc(p.lines, Member(Reserved(p.reserved + 1), rest));
      GapIsCounted(Layout(p.lines), p.reserved, Total(p.lines), rest);
    }
  }

  /** The reserved members of a document are numbered from one in the order of their bits; none is empty, and each takes
      a whole gap: a field or the end of the struct follows. */
  lemma {:induction false} ReservedMembers(opt: Options, doc: Document)
    requires opt.createStruct
    ensures var slots := Layout(AfterDocument(opt, doc, []));
      CountsUp(ReservedNumbers(slots)) && GapsAreWhole(slots)
  {
    var p, more := AfterFields(opt, doc.named, Begin(), doc.fields), FlagsLine(doc);
    FieldsAreCounted(opt, doc.named, doc.fields);
    RestIsCounted(opt, p, doc.size);
    DefinesTakeNoPlace(FillRest(opt, p, doc.size).lines, more, FillRest(opt, p, doc.size).lines + more);
  }
}
