/** Struct sizes in the documentation tree: `DocStruct.size`, `DocBitfield.size`, and `DocStructField.size`, which
    resolves a '?' from the siblings and stores the result in the field's dictionary. */
module DocSize {
  import opened Wrappers
  import Bitfield

  /** The `size` entry of a dictionary: a number, or '?'. */
  datatype Entry = Known(n: int) | Fill

  /** Documents refer to their dictionaries, which may be shared: a file that is included twice is parsed once. */
  datatype Doc = Struct(dict: nat, fields: seq<Doc>) | Field(dict: nat) | BitfieldDoc(dict: nat)

  /** The `size` entries of all dictionaries. */
  type Sizes = map<nat, Entry>

  /** `DocStruct.size`: anything but a number counts as -1. */
  function Declared(s: Sizes, dict: nat): int {
    if dict in s && s[dict].Known? then s[dict].n else -1
  }

  /** The size of a field that is not to be resolved; None for a '?' or a missing entry. */
  function PlainSize(s: Sizes, f: Doc): Option<int> {
    if f.Struct? then (if f.dict in s then Some(Declared(s, f.dict)) else None)
    else if f.dict in s && s[f.dict].Known? then Some(s[f.dict].n)
    else None
  }

  function SumSizes(s: Sizes, fields: seq<Doc>): Option<int> {
    if fields == [] then Some(0)
    else
      var n := |fields| - 1;
      match (SumSizes(s, fields[..n]), PlainSize(s, fields[n]))
      case (Some(sum), Some(size)) => Some(sum + size)
      case _ => None
  }

  datatype Reading = Reading(size: Option<int>, sizes: Sizes)

  /** Reading the size of field k: a '?' must stand last, and takes what its siblings leave of the declared size;
      None stands for Python's exceptions. */
  function Read(s: Sizes, parent: Doc, k: nat): Reading
    requires parent.Struct? && k < |parent.fields|
  {
    var f := parent.fields[k];
    if !(f.Field? && f.dict in s && s[f.dict].Fill?) then Reading(PlainSize(s, f), s)
    else if k != |parent.fields| - 1 || parent.dict !in s then Reading(None, s)
    else
      match SumSizes(s, parent.fields[..k])
      case None => Reading(None, s)
      case Some(sum) =>
        var size := Declared(s, parent.dict) - sum;
        Reading(Some(size), s[f.dict := Known(size)])
  }

  /** `make_size_type` finds a type. */
  predicate HasType(size: Option<int>) {
    size.Some? && Bitfield.MakeSizeType(size.value).Some?
  }

  class DocStore {
    var sizes: Sizes

    constructor (sizes: Sizes)
      ensures this.sizes == sizes
    {
      this.sizes := sizes;
    }

    /** The `size` property of field k of a struct. */
    method Size(parent: Doc, k: nat) returns (r: Option<int>)
      requires parent.Struct? && k < |parent.fields|
      modifies this
      ensures Reading(r, sizes) == Read(old(sizes), parent, k)
      ensures var f := parent.fields[k];
        f.dict in old(sizes) && old(sizes)[f.dict].Known? ==> r == Some(old(sizes)[f.dict].n) && sizes == old(sizes)
      ensures var f := parent.fields[k];
        f.dict in old(sizes) && old(sizes)[f.dict].Fill? && f.Struct? ==> r == Some(-1) && sizes == old(sizes)
      ensures var f := parent.fields[k];
        f.dict !in old(sizes) || (old(sizes)[f.dict].Fill? && f.BitfieldDoc?) ==> r == None
      ensures r == None ==> sizes == old(sizes)
      ensures var f := parent.fields[k];
        f.dict in old(sizes) && old(sizes)[f.dict].Fill? && f.Field? && r.Some? ==>
          k + 1 == |parent.fields| && parent.dict in old(sizes) && sizes == old(sizes)[f.dict := Known(r.value)]
      decreases k
    {
      var f := parent.fields[k];
      if f.dict !in sizes {
        return None;
      }
      if f.Struct? {
        return Some(Declared(sizes, f.dict));
      }
      if sizes[f.dict].Known? {
        return Some(sizes[f.dict].n);
      }
      if f.BitfieldDoc? || k != |parent.fields| - 1 || parent.dict !in sizes {
        return None;
      }
      var sum := 0;
      for i := 0 to k
        invariant sizes == old(sizes) && SumSizes(sizes, parent.fields[..i]) == Some(sum)
      {
        var size := Size(parent, i);
        SumStep(old(sizes), parent.fields, i);
        if size == None {
          SumFails(old(sizes), parent.fields, i + 1, k);
          return None;
        }
        sum := sum + size.value;
      }
      var size := Declared(sizes, parent.dict) - sum;
      sizes := sizes[f.dict := Known(size)];
      return Some(size);
    }

    /** The fields of a struct in order, and the structs among them in turn, as `process_struct` visits them. A field
        and a bit-field need a type of their size. */
    method Process(doc: Doc) returns (ok: bool)
      requires doc.Struct?
      modifies this
      ensures ok <==> Resolve(old(sizes), doc, 0).Some?
      ensures ok ==> sizes == Resolve(old(sizes), doc, 0).value
      decreases doc
    {
      for i := 0 to |doc.fields|
        invariant Resolve(old(sizes), doc, 0) == Resolve(sizes, doc, i)
      {
        var f := doc.fields[i];
        if f.Struct? {
          ok := Process(f);
          if !ok {
            return;
          }
        } else {
          var size := Size(doc, i);
          if !HasType(size) {
            return false;
          }
        }
      }
      ok := true;
    }
  }

  lemma SumStep(s: Sizes, fields: seq<Doc>, i: nat)
    requires i < |fields|
    ensures SumSizes(s, fields[..i + 1]) ==
      match (SumSizes(s, fields[..i]), PlainSize(s, fields[i]))
      case (Some(sum), Some(size)) => Some(sum + size)
      case _ => None
  {
    assert fields[..i + 1][..i] == fields[..i];
  }

  lemma {:induction false} SumFails(s: Sizes, fields: seq<Doc>, i: nat, k: nat)
    requires i <= k <= |fields| && SumSizes(s, fields[..i]) == None
    ensures SumSizes(s, fields[..k]) == None
    decreases k
  {
    if i < k {
      SumFails(s, fields, i, k - 1);
      SumStep(s, fields, k - 1);
    }
  }

  /** The entries after the fields from k on have been visited; None for an exception. */
  function Resolve(s: Sizes, doc: Doc, k: nat): Option<Sizes>
    requires doc.Struct? && k <= |doc.fields|
    decreases doc, |doc.fields| - k
  {
    if k == |doc.fields| then Some(s)
    else
      var f := doc.fields[k];
      match f
      case Struct(_, _) =>
        (match Resolve(s, f, 0)
         case None => None
         case Some(s') => Resolve(s', doc, k + 1))
      case _ =>
        var r := Read(s, doc, k);
        if HasType(r.size) then Resolve(r.sizes, doc, k + 1) else None
  }
}
