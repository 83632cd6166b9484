/** The bit-field generator: `process_bitfield` and `process_bitfield_field` of the C processor,
    with the bit ranges of `DocBitfieldField` and the type choice of `make_size_type`. */
module Bitfield {
  import opened Bits
  import opened Wrappers

  // ---------- the documents ----------

  const MAXPHYADDR: nat := 48

  /** The last bit of a range, which may be written "(MAXPHYADDR-1)". */
  datatype LastBit = At(bit: nat) | MaxPhyAddrMinus1

  /** The `bit` entry of a field: one bit, or a range with an inclusive end. */
  datatype BitSpec = Single(bit: nat) | Range(first: nat, last: LastBit)

  /** The bit is one of those that the document names; a range holds both of its ends. */
  predicate Names(spec: BitSpec, k: nat) {
    match spec
    case Single(b) => k == b
    case Range(first, At(last)) => first <= k <= last
    case Range(first, MaxPhyAddrMinus1) => first <= k <= 47
  }

  /** The first bit as it is written. */
  function First(spec: BitSpec): nat {
    if spec.Single? then spec.bit else spec.first
  }

  /** The last bit as it is written. */
  function Last(spec: BitSpec): nat {
    match spec
    case Single(b) => b
    case Range(_, At(last)) => last
    case Range(_, MaxPhyAddrMinus1) => 47
  }

  /** `DocBitfieldField.bit`: first bit and one past the last bit. */
  function Bit(spec: BitSpec): (r: (nat, nat))
    ensures r.0 == First(spec) && r.1 == Last(spec) + 1
    ensures forall k: nat :: Names(spec, k) <==> r.0 <= k < r.1
  {
    match spec
    case Single(b) => (b, b + 1)
    case Range(first, At(last)) => (first, last + 1)
    case Range(first, MaxPhyAddrMinus1) => (first, MAXPHYADDR - 1 + 1)
  }

  /** A named constant. */
  datatype Definition = Definition(name: string, value: string)

  /** A field of a bit-field document, with the definitions nested in it; other kinds of documents are passed over. */
  datatype Field = BitRange(name: string, spec: BitSpec, nested: seq<Definition>) | Other

  datatype Document = Document(size: int, named: bool, fields: seq<Field>)

  datatype Options = Options(createStruct: bool, fill: bool, defineBit: bool, defineFlag: bool,
                             defineMask: bool, defineGet: bool)

  // ---------- the output ----------

  /** One of the fixed-width integer types, or an array of bytes. */
  datatype CType = Integer(bits: nat) | ByteArray(count: int)

  function TypeBits(t: CType): int {
    match t
    case Integer(bits) => bits
    case ByteArray(count) => 8 * count
  }

  /** `make_size_type`; None is its exception. */
  function MakeSizeType(size: int): Option<CType> {
    if size in {8, 16, 32, 64} then Some(Integer(size))
    else if size % 8 == 0 then Some(ByteArray(size / 8))
    else None
  }

  /** The bits of the type without its array suffix, as the bit-field members and `Flags` are declared. */
  function BaseBits(t: CType): nat {
    if t.Integer? then t.bits else 8
  }

  datatype Name = Reserved(index: nat) | Named(name: string)

  /** A printed line: a member of the struct, a macro for a field, a definition, or the member for the whole word
      beside the struct. */
  datatype Line =
    | Member(name: Name, width: int)
    | DefineBit(field: string, bit: nat)
    | DefineFlag(field: string, flag: nat)
    | DefineMask(field: string, mask: nat)
    | DefineGet(field: string, shift: nat, mask: nat)
    | Define(constant: string, value: string)
    | Flags(bits: nat)

  /** Python's exceptions: no field to look at, a type that does not exist, a negative shift count, and the assertions
      that no other bit-field is being printed and that a bit-field at the root has a name. */
  datatype Status = Fine | NoFields | NoSuchType | NegativeShift | NotReset | NoName

  /** The mask for the bits [first, end); a range that runs backwards raises an exception instead. */
  function RangeMask(first: nat, end: nat): nat {
    if first <= end then Mask(end - first) else 0
  }

  /** The options ask for a macro that needs the mask. */
  predicate NeedsMask(opt: Options) {
    opt.defineFlag || opt.defineMask || opt.defineGet
  }

  /** The macros of one field. */
  function Defines(opt: Options, name: string, first: nat, end: nat): seq<Line> {
    (if opt.defineBit then [DefineBit(name, first)] else [])
    + (if opt.defineFlag then [DefineFlag(name, Shl(RangeMask(first, end), first))] else [])
    + (if opt.defineMask then [DefineMask(name, RangeMask(first, end))] else [])
    + (if opt.defineGet then [DefineGet(name, first, RangeMask(first, end))] else [])
  }

  /** The definitions nested in a field. */
  function NestedLines(nested: seq<Definition>): (lines: seq<Line>)
    ensures |lines| == |nested|
    ensures forall i | 0 <= i < |nested| :: lines[i] == Define(nested[i].name, nested[i].value)
  {
    seq(|nested|, i requires 0 <= i < |nested| => Define(nested[i].name, nested[i].value))
  }

  /** What is printed for a field behind its member. */
  function Macros(opt: Options, named: bool, name: string, first: nat, end: nat, nested: seq<Definition>): seq<Line> {
    (if named then Defines(opt, name, first, end) else []) + NestedLines(nested)
  }

  /** The state between two fields: the bit position reached, the reserved members so far, the lines. */
  datatype Progress = Progress(position: int, reserved: nat, lines: seq<Line>)

  /** A reserved member fills the gap in front of a field. */
  function FillGap(p: Progress, first: nat): Progress {
    if first > p.position then
      Progress(first, p.reserved + 1, p.lines + [Member(Reserved(p.reserved + 1), first - p.position)])
    else p
  }

  /** The member of a field that ends at `end`. */
  function AddMember(q: Progress, name: string, end: nat): Progress {
    Progress(q.position, q.reserved, q.lines + [Member(Named(name), end - q.position)])
  }

  /** The struct members for a field: the gap in front of it, and the field. */
  function WithMember(p: Progress, name: string, first: nat, end: nat): Progress {
    AddMember(FillGap(p, first), name, end)
  }

  function AfterField(opt: Options, named: bool, p: Progress, f: Field): Progress {
    match f
    case Other => p
    case BitRange(name, spec, nested) =>
      var (first, end) := Bit(spec);
      var q := if opt.createStruct then WithMember(p, name, first, end) else p;
      Progress(end, q.reserved, q.lines + Macros(opt, named, name, first, end, nested))
  }

  /** No range runs backwards. */
  predicate Forward(fields: seq<Field>) {
    forall f | f in fields && f.BitRange? :: First(f.spec) <= Last(f.spec) + 1
  }

  function AfterFields(opt: Options, named: bool, p: Progress, fields: seq<Field>): Progress {
    if fields == [] then p
    else
      var n := |fields| - 1;
      AfterField(opt, named, AfterFields(opt, named, p, fields[..n]), fields[n])
  }

  /** The trailing reserved member. */
  function FillRest(opt: Options, p: Progress, size: int): Progress {
    if p.position < size && opt.fill then
      p.(reserved := p.reserved + 1, lines := p.lines + [Member(Reserved(p.reserved + 1), size - p.position)])
    else p
  }

  predicate HasBits(fields: seq<Field>) {
    exists f :: f in fields && f.BitRange?
  }

  /** The member for the whole word, which only named bit-fields have. */
  function FlagsLine(doc: Document): seq<Line> {
    var t := MakeSizeType(doc.size);
    if doc.named && t.Some? then [Flags(BaseBits(t.value))] else []
  }

  /** All lines of a bit-field document, after the lines already printed. */
  function AfterDocument(opt: Options, doc: Document, lines: seq<Line>): seq<Line> {
    var p := AfterFields(opt, doc.named, Progress(0, 0, lines), doc.fields);
    if opt.createStruct then FillRest(opt, p, doc.size).lines + FlagsLine(doc) else p.lines
  }

  // ---------- the processor ----------

  class CProcessor {
    const opt: Options
    var position: Option<int>  // `_bitfield_position`
    var reserved: Option<nat>  // `_bitfield_reserved_count`
    var nesting: nat  // `_typedef_nesting`
    var output: seq<Line>

    constructor (opt: Options)
      ensures this.opt == opt && position == None && reserved == None && nesting == 0 && output == []
    {
      this.opt := opt;
      position := None;
      reserved := None;
      nesting := 0;
      output := [];
    }

    /** The fields as a value; what is not set counts as zero. */
    function Progressed(): Progress
      reads this
    {
      Progress(if position.Some? then position.value else 0, if reserved.Some? then reserved.value else 0, output)
    }

    /** `process_bitfield_field`. */
    method ProcessBitfieldField(f: Field, size: int, named: bool) returns (status: Status)
      requires f.BitRange?
      requires opt.createStruct ==> position.Some? && reserved.Some?
      modifies `position, `reserved, `output
      ensures status == Fine <==>
        && (opt.createStruct ==> MakeSizeType(size).Some?)
        && (named && NeedsMask(opt) ==> First(f.spec) <= Last(f.spec) + 1)
      ensures status == Fine ==> Progressed() == AfterField(opt, named, old(Progressed()), f)
      ensures status == Fine ==> position == Some(Last(f.spec) + 1) && (reserved.Some? <==> old(reserved).Some?)
    {
      var (first, end) := Bit(f.spec);
      if opt.createStruct {
        status := PrintMember(f.name, first, end, size);
        if status != Fine {
          return;
        }
      }
      if named && end < first && NeedsMask(opt) {
        return NegativeShift;
      }
      PrintMacros(named, f.name, first, end, f.nested);
      return Fine;
    }

    /** The struct member of a field and, if needed, the reserved member in front of it. */
    method PrintMember(name: string, first: nat, end: nat, size: int) returns (status: Status)
      requires position.Some? && reserved.Some?
      modifies `position, `reserved, `output
      ensures status == if MakeSizeType(size).Some? then Fine else NoSuchType
      ensures position.Some? && reserved.Some?
      ensures status == Fine ==> Progressed() == WithMember(old(Progressed()), name, first, end)
    {
      if first > position.value {
        reserved := Some(reserved.value + 1);
        var length := first - position.value;
        if MakeSizeType(size).None? {
          return NoSuchType;
        }
        output := output + [Member(Reserved(reserved.value), length)];
        position := Some(first);
      }
      var length := end - position.value;
      if MakeSizeType(size).None? {
        return NoSuchType;
      }
      output := output + [Member(Named(name), length)];
      return Fine;
    }

    /** The macros of a field, the new position, and the documents nested in the field. */
    method PrintMacros(named: bool, name: string, first: nat, end: nat, nested: seq<Definition>)
      requires named ==> first <= end || !NeedsMask(opt)
      modifies `position, `output
      ensures output == old(output) + Macros(opt, named, name, first, end, nested) && position == Some(end)
    {
      ghost var before := output;
      if named {
        PrintDefines(name, first, end);
      }
      position := Some(end);
      ghost var defines := if named then Defines(opt, name, first, end) else [];
      assert output == before + defines;
      PrintNested(nested);
      assert before + defines + NestedLines(nested) == before + (defines + NestedLines(nested));
    }

    /** The definitions nested in a field. */
    method PrintNested(nested: seq<Definition>)
      modifies `output
      ensures output == old(output) + NestedLines(nested)
    {
      for i := 0 to |nested|
        invariant output == old(output) + NestedLines(nested)[..i]
      {
        output := output + [Define(nested[i].name, nested[i].value)];
      }
    }

    /** The macro lines; a negative shift count is left only when none of them needs it. */
    method PrintDefines(name: string, first: nat, end: nat)
      requires first <= end || !NeedsMask(opt)
      modifies `output
      ensures output == old(output) + Defines(opt, name, first, end)
    {
      if opt.defineBit {
        output := output + [DefineBit(name, first)];
      }
      if opt.defineFlag {
        output := output + [DefineFlag(name, Shl(RangeMask(first, end), first))];
      }
      if opt.defineMask {
        output := output + [DefineMask(name, RangeMask(first, end))];
      }
      if opt.defineGet {
        output := output + [DefineGet(name, first, RangeMask(first, end))];
      }
    }

    /** `process_bitfield`: in the struct form it starts and ends with no bit-field in progress. */
    method ProcessBitfield(doc: Document) returns (status: Status)
      modifies `position, `reserved, `nesting, `output
      ensures status == Fine <==>
        && (opt.createStruct && old(nesting) == 0 ==> doc.named)
        && (doc.named && NeedsMask(opt) ==> Forward(doc.fields))
        && (opt.createStruct ==> old(position) == None && old(reserved) == None)
        && (opt.createStruct ==> HasBits(doc.fields) && MakeSizeType(doc.size).Some?)
      ensures status == Fine ==> output == AfterDocument(opt, doc, old(output))
      ensures status == Fine ==> nesting == old(nesting)
      ensures status == Fine && opt.createStruct ==> position == None && reserved == None
    {
      if opt.createStruct {
        nesting := nesting + 1;
        if nesting == 1 && !doc.named {
          return NoName;
        }
        if position != None || reserved != None {
          return NotReset;
        }
        position := Some(0);
        reserved := Some(0);
      }
      var last: Option<Field>;
      status, last := ProcessFields(doc);
      if status != Fine || !opt.createStruct {
        return;
      }
      if last == None {
        return NoFields;
      }
      var lastEnd := Bit(last.value.spec).1;
      if lastEnd < doc.size && opt.fill {
        reserved := Some(reserved.value + 1);
        output := output + [Member(Reserved(reserved.value), doc.size - position.value)];
      }
      position := None;
      reserved := None;
      if doc.named {
        output := output + [Flags(BaseBits(MakeSizeType(doc.size).value))];
      }
      nesting := nesting - 1;
    }

    /** The field loop of `process_bitfield`; returns the last bit range as well. */
    method ProcessFields(doc: Document) returns (status: Status, last: Option<Field>)
      requires opt.createStruct ==> position == Some(0) && reserved == Some(0)
      modifies `position, `reserved, `output
      ensures status == Fine <==>
        && (doc.named && NeedsMask(opt) ==> Forward(doc.fields))
        && (opt.createStruct && HasBits(doc.fields) ==> MakeSizeType(doc.size).Some?)
      ensures status == Fine ==>
        var after := AfterFields(opt, doc.named, Progress(0, 0, old(output)), doc.fields);
        output == after.lines && (opt.createStruct ==> Progressed() == after && position.Some? && reserved.Some?)
      ensures status == Fine ==> (last == None <==> !HasBits(doc.fields))
      ensures status == Fine && last.Some? ==> last.value.BitRange? && position == Some(Last(last.value.spec) + 1)
    {
      last := None;
      ghost var p0 := Progress(0, 0, output);
      for i := 0 to |doc.fields|
        invariant opt.createStruct ==> position.Some? && reserved.Some?
        invariant opt.createStruct ==> Progressed() == AfterFields(opt, doc.named, p0, doc.fields[..i])
        invariant output == AfterFields(opt, doc.named, p0, doc.fields[..i]).lines
        invariant last == None <==> !HasBits(doc.fields[..i])
        invariant last.Some? ==> last.value.BitRange? && position == Some(Last(last.value.spec) + 1)
        invariant doc.named && NeedsMask(opt) ==> Forward(doc.fields[..i])
        invariant last.Some? && opt.createStruct ==> MakeSizeType(doc.size).Some?
      {
        var f := doc.fields[i];
        assert f in doc.fields;
        FieldsStep(opt, doc.named, p0, doc.fields, i);
        if f.BitRange? {
          status := ProcessBitfieldField(f, doc.size, doc.named);
          if status != Fine {
            return;
          }
          last := Some(f);
        }
      }
      assert doc.fields[..|doc.fields|] == doc.fields;
      status := Fine;
    }
  }

  lemma FieldsStep(opt: Options, named: bool, p: Progress, fields: seq<Field>, i: nat)
    requires i < |fields|
    ensures Forward(fields[..i + 1]) <==>
      Forward(fields[..i]) && (fields[i].BitRange? ==> First(fields[i].spec) <= Last(fields[i].spec) + 1)
    ensures AfterFields(opt, named, p, fields[..i + 1])
         == AfterField(opt, named, AfterFields(opt, named, p, fields[..i]), fields[i])
    ensures HasBits(fields[..i + 1]) <==> HasBits(fields[..i]) || fields[i].BitRange?
  {
    var ext := fields[..i + 1];
    assert ext[..i] == fields[..i] && ext[i] == fields[i];
    assert fields[i] in fields && fields[i] in ext;
    assert forall f | f in ext :: f in fields[..i] || f == fields[i];
    assert forall f | f in fields[..i] :: f in ext;
  }
}
