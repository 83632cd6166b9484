/** How a C compiler packs the printed struct into storage units of the declared type. */
module BitfieldStorage {
  import opened Arith
  import opened Bits
  import opened Wrappers
  import opened Bitfield
  import opened BitfieldProofs

  /** Where a member of the given width goes behind bit q: in the same storage unit, if it fits there, otherwise at the
      start of the next one. */
  function Start(q: int, width: int, unit: nat): int
    requires unit > 0
  {
    if q % unit + width <= unit then q else (q / unit + 1) * unit
  }

  function PackedEnd(lines: seq<Line>, unit: nat): int
    requires unit > 0
  {
    if lines == [] then 0
    else
      var q, line := PackedEnd(lines[..|lines| - 1], unit), lines[|lines| - 1];
      if line.Member? then Start(q, line.width, unit) + line.width else q
  }

  /** The members in storage units of the given size. */
  function Packed(lines: seq<Line>, unit: nat): seq<Slot>
    requires unit > 0
  {
    if lines == [] then []
    else
      var init, line := lines[..|lines| - 1], lines[|lines| - 1];
      Packed(init, unit)
      + if line.Member? then [Slot(line.name, Start(PackedEnd(init, unit), line.width, unit), line.width)] else []
  }

  /** No member crosses the border of a storage unit. */
  predicate NoneCrosses(lines: seq<Line>, unit: nat)
    requires unit > 0
  {
    lines != [] ==>
      var init, line := lines[..|lines| - 1], lines[|lines| - 1];
      NoneCrosses(init, unit) && (line.Member? ==> Total(init) % unit + line.width <= unit)
  }

  lemma PackedLength(lines: seq<Line>, unit: nat)
    requires unit > 0
    ensures |Packed(lines, unit)| == |Layout(lines)|
  {
  }

  lemma NextUnit(q: int, unit: nat)
    requires unit > 0
    ensures (q / unit + 1) * unit > q
  {
    assert q == unit * (q / unit) + q % unit;
    assert (q / unit + 1) * unit == unit * (q / unit) + unit;
  }

  /** The compiler's layout is the one where every member follows its predecessor immediately, if and only if no member
      crosses the border of a storage unit. */
  lemma {:induction false} PackedIsLayout(lines: seq<Line>, unit: nat)
    requires unit > 0
    ensures Packed(lines, unit) == Layout(lines) <==> NoneCrosses(lines, unit)
    ensures NoneCrosses(lines, unit) ==> PackedEnd(lines, unit) == Total(lines)
  {
    if lines == [] {
    } else {
      var init, line := lines[..|lines| - 1], lines[|lines| - 1];
      PackedIsLayout(init, unit);
      PackedLength(init, unit);
      if line.Member? {
        NextUnit(Total(init), unit);
        SameSnoc(Packed(init, unit), Slot(line.name, Start(PackedEnd(init, unit), line.width, unit), line.width),
                 Layout(init), Slot(line.name, Total(init), line.width));
      } else {
        assert Packed(init, unit) + [] == Packed(init, unit) && Layout(init) + [] == Layout(init);
      }
    }
  }

  /** Members that all fit into one storage unit cross no border. */
  lemma {:induction false} OneUnit(lines: seq<Line>, unit: nat)
    requires unit > 0 && Widths(lines) && Total(lines) <= unit
    ensures NoneCrosses(lines, unit)
  {
    if lines == [] {
    } else {
      var init, line := lines[..|lines| - 1], lines[|lines| - 1];
      assert line in lines;
      LayoutInWord(init);
      OneUnit(init, unit);
      var q := Total(init);
      if q < unit {
        DivModUnique(q, unit, 0, q);
      } else {
        DivModUnique(q, unit, 1, 0);
      }
    }
  }

  /** For bit-fields of 8, 16, 32 and 64 bits the declared type is the whole word, so the compiled struct is the layout
      that the widths describe, every word is put together again from its members, and `Flags` holds the word. */
  lemma CompiledRoundTrip(opt: Options, doc: Document, x: nat)
    requires opt.createStruct && opt.fill
    requires Ordered(doc.fields) && NonEmpty(doc.fields) && EndOf(doc.fields) <= doc.size
    requires MakeSizeType(doc.size).Some? && BaseBits(MakeSizeType(doc.size).value) == doc.size
    requires x < Pow2(doc.size)
    ensures var lines := AfterDocument(opt, doc, []); var slots := Packed(lines, doc.size);
      && slots == Layout(lines) && InWord(slots) && Reassembled(x, slots) == x
      && (doc.named ==> lines != [] && lines[|lines| - 1] == Flags(doc.size))
  {
    var lines := AfterDocument(opt, doc, []);
    DocumentIsComplete(opt, doc);
    OneUnit(lines, doc.size);
    PackedIsLayout(lines, doc.size);
    BitfieldRoundTrip(opt, doc, x);
  }

  /** For all other sizes `Flags` is too small for the word. */
  lemma FlagsHoldsWord(opt: Options, doc: Document)
    requires opt.createStruct && doc.named && doc.size > 0 && MakeSizeType(doc.size).Some?
    ensures var lines := AfterDocument(opt, doc, []);
      && lines != [] && lines[|lines| - 1].Flags?
      && (lines[|lines| - 1].bits >= doc.size <==> doc.size in {8, 16, 32, 64})
  {
  }

  /** A 24-bit word with a field of twelve bits is declared with bytes, and the field crosses a byte. */
  lemma BytesCannotHoldWideFields()
    ensures MakeSizeType(24) == Some(ByteArray(3)) && BaseBits(ByteArray(3)) == 8
    ensures !NoneCrosses([Member(Named("Field"), 12), Member(Reserved(1), 12)], 8)
  {
    var lines := [Member(Named("Field"), 12), Member(Reserved(1), 12)];
    assert lines[..1] == [lines[0]] && lines[..1][..0] == [];
    assert !NoneCrosses(lines[..1], 8);
  }
}
