/** What the resolution of '?' promises: sizes add up at every level of a tree, and reading again changes nothing. */
module DocSizeProofs {
  import opened DocSize
  import opened Wrappers

  /** The document has a number for its size. */
  predicate HasSize(s: Sizes, f: Doc) {
    f.dict in s && s[f.dict].Known?
  }

  /** Numbers stay; a '?' may become a number. */
  ghost predicate Extends(s: Sizes, s': Sizes) {
    forall d | d in s :: d in s' && (s[d].Known? ==> s'[d] == s[d])
  }

  /** All these documents have numbers. */
  predicate HaveSizes(s: Sizes, fields: seq<Doc>) {
    forall f | f in fields :: HasSize(s, f)
  }

  /** The numbers in the dictionaries of these documents, added up, whatever kind of document each is. */
  function Sum(s: Sizes, fields: seq<Doc>): int
    requires HaveSizes(s, fields)
  {
    if fields == [] then 0
    else
      var f := fields[|fields| - 1];
      assert f in fields;
      Sum(s, fields[..|fields| - 1]) + s[f.dict].n
  }

  lemma {:induction false} SumKept(s: Sizes, s': Sizes, fields: seq<Doc>)
    requires Extends(s, s') && HaveSizes(s, fields)
    ensures HaveSizes(s', fields) && Sum(s', fields) == Sum(s, fields)
    ensures SumSizes(s', fields) == Some(Sum(s, fields))
  {
    if fields == [] {
    } else {
      assert fields[|fields| - 1] in fields;
      SumKept(s, s', fields[..|fields| - 1]);
    }
  }

  // ---------- one struct ----------

  /** Resolving the '?' at the end of a struct gives it what the numbers of its siblings, be they fields, bit-fields or
      structs, leave of the declared number; a struct without a number counts as -1. So the numbers of all fields add
      up to the declared one, whatever it is. Reading again gives the same number and changes nothing. */
  lemma {:induction false} ResolvedSizesAddUp(s: Sizes, parent: Doc, k: nat)
    requires parent.Struct? && k + 1 == |parent.fields| && parent.dict in s
    requires var f := parent.fields[k]; f.Field? && f.dict in s && s[f.dict].Fill? && f.dict != parent.dict
    requires HaveSizes(s, parent.fields[..k])
    ensures var f := parent.fields[k];
      var total := if HasSize(s, parent) then s[parent.dict].n else -1;
      var rest := total - Sum(s, parent.fields[..k]);
      var s' := s[f.dict := Known(rest)];
      && Read(s, parent, k) == Reading(Some(rest), s')
      && HaveSizes(s', parent.fields) && Sum(s', parent.fields) == total
      && Read(s', parent, k) == Read(s, parent, k)
  {
    var f := parent.fields[k];
    var total := if HasSize(s, parent) then s[parent.dict].n else -1;
    var s' := s[f.dict := Known(total - Sum(s, parent.fields[..k]))];
    SumKept(s, s, parent.fields[..k]);
    SumKept(s, s', parent.fields[..k]);
    assert parent.fields == parent.fields[..k] + [f];
  }

  /** The resolved size is not negative exactly when the siblings fit. */
  lemma {:induction false} ResolvedSizeFits(s: Sizes, parent: Doc, k: nat)
    requires parent.Struct? && k + 1 == |parent.fields| && HasSize(s, parent)
    requires var f := parent.fields[k]; f.Field? && f.dict in s && s[f.dict].Fill?
    requires HaveSizes(s, parent.fields[..k])
    ensures var r := Read(s, parent, k);
      r.size.Some? && (r.size.value >= 0 <==> Sum(s, parent.fields[..k]) <= s[parent.dict].n)
  {
    SumKept(s, s, parent.fields[..k]);
  }

  /** Two structs may share the dictionary of their last field, when a file is included in both. The first to be read
      resolves it for both, so the sizes of the second add up exactly if both leave the same rest. */
  lemma {:induction false} SharedFieldFitsBoth(s: Sizes, a: Doc, b: Doc, i: nat, j: nat)
    requires a.Struct? && i + 1 == |a.fields| && HasSize(s, a) && b.Struct? && j + 1 == |b.fields| && HasSize(s, b)
    requires var f := a.fields[i]; f.Field? && f == b.fields[j] && f.dict in s && s[f.dict].Fill?
    requires HaveSizes(s, a.fields[..i]) && HaveSizes(s, b.fields[..j])
    ensures var s' := Read(Read(s, a, i).sizes, b, j).sizes;
      var restA := s[a.dict].n - Sum(s, a.fields[..i]);
      var restB := s[b.dict].n - Sum(s, b.fields[..j]);
      HasSize(s', b) && HaveSizes(s', b.fields) && (Sum(s', b.fields) == s'[b.dict].n <==> restA == restB)
  {
    var s' := Read(s, a, i).sizes;
    SumKept(s, s, a.fields[..i]);
    SumKept(s, s', b.fields[..j]);
    assert b.fields == b.fields[..j] + [b.fields[j]];
  }

  // ---------- a tree of structs ----------

  /** From field k on, every struct has a number for its size and ends with a '?' of its own, and everything else
      has a number. */
  predicate Whole(s: Sizes, doc: Doc, k: nat)
    requires doc.Struct? && k <= |doc.fields|
    decreases doc, |doc.fields| - k
  {
    && k < |doc.fields|
    && if k + 1 == |doc.fields| then
         doc.fields[k].Field? && doc.fields[k].dict in s && s[doc.fields[k].dict].Fill?
       else
         && HasSize(s, doc.fields[k])
         && (doc.fields[k].Struct? ==> Whole(s, doc.fields[k], 0))
         && Whole(s, doc, k + 1)
  }

  /** The dictionaries of the '?' fields from field k on. */
  function Fills(doc: Doc, k: nat): set<nat>
    requires doc.Struct? && k <= |doc.fields|
    decreases doc, |doc.fields| - k
  {
    if k == |doc.fields| then {}
    else
      (if doc.fields[k].Struct? then Fills(doc.fields[k], 0)
       else if k + 1 == |doc.fields| then {doc.fields[k].dict} else {})
      + Fills(doc, k + 1)
  }

  /** No two '?' fields from field k on share a dictionary. */
  predicate Separate(doc: Doc, k: nat)
    requires doc.Struct? && k <= |doc.fields|
    decreases doc, |doc.fields| - k
  {
    k < |doc.fields| ==>
      && (doc.fields[k].Struct? ==> Separate(doc.fields[k], 0) && Fills(doc.fields[k], 0) !! Fills(doc, k + 1))
      && Separate(doc, k + 1)
  }

  /** The sizes add up in this struct and in every struct below it. */
  predicate Settled(s: Sizes, doc: Doc)
    decreases doc, 1, 0
  {
    && doc.Struct? && HasSize(s, doc)
    && SettledTo(s, doc, |doc.fields|)
    && HaveSizes(s, doc.fields) && Sum(s, doc.fields) == s[doc.dict].n
  }

  predicate SettledTo(s: Sizes, doc: Doc, k: nat)
    requires doc.Struct? && k <= |doc.fields|
    decreases doc, 0, k
  {
    k > 0 ==>
      && SettledTo(s, doc, k - 1)
      && HasSize(s, doc.fields[k - 1])
      && (if doc.fields[k - 1].Struct? then Settled(s, doc.fields[k - 1]) else s[doc.fields[k - 1].dict].n % 8 == 0)
  }

  /** From field k on, everything that is declared with a type of its size is a whole number of bytes: the fields with a
      number, the bit-fields, and what is left for the '?' of each struct. */
  predicate WholeBytes(s: Sizes, doc: Doc, k: nat)
    requires doc.Struct? && k <= |doc.fields|
    decreases doc, |doc.fields| - k
  {
    && k < |doc.fields|
    && if k + 1 == |doc.fields| then
         HasSize(s, doc) && HaveSizes(s, doc.fields[..k]) && (s[doc.dict].n - Sum(s, doc.fields[..k])) % 8 == 0
       else
         && HasSize(s, doc.fields[k])
         && (if doc.fields[k].Struct? then WholeBytes(s, doc.fields[k], 0) else s[doc.fields[k].dict].n % 8 == 0)
         && WholeBytes(s, doc, k + 1)
  }

  ghost predicate Untouched(s: Sizes, s': Sizes, dicts: set<nat>) {
    forall d | d in s && d !in dicts :: d in s' && s'[d] == s[d]
  }

  lemma {:induction false} WholeKept(s: Sizes, s': Sizes, doc: Doc, k: nat, dicts: set<nat>)
    requires doc.Struct? && k <= |doc.fields| && Whole(s, doc, k)
    requires Extends(s, s') && Untouched(s, s', dicts) && dicts !! Fills(doc, k)
    ensures Whole(s', doc, k)
    decreases doc, |doc.fields| - k
  {
    if k + 1 < |doc.fields| {
      if doc.fields[k].Struct? { WholeKept(s, s', doc.fields[k], 0, dicts); }
      WholeKept(s, s', doc, k + 1, dicts);
    }
  }

  /** What other structs resolve does not matter for this. */
  lemma {:induction false} WholeBytesKept(s: Sizes, s': Sizes, doc: Doc, k: nat, dicts: set<nat>)
    requires doc.Struct? && k <= |doc.fields| && Whole(s, doc, k) && HasSize(s, doc)
    requires HaveSizes(s, doc.fields[..k])
    requires Extends(s, s') && Untouched(s, s', dicts) && dicts !! Fills(doc, k)
    ensures WholeBytes(s', doc, k) <==> WholeBytes(s, doc, k)
    decreases doc, |doc.fields| - k
  {
    if k + 1 < |doc.fields| {
      if doc.fields[k].Struct? { WholeBytesKept(s, s', doc.fields[k], 0, dicts); }
      assert doc.fields[..k + 1] == doc.fields[..k] + [doc.fields[k]];
      WholeBytesKept(s, s', doc, k + 1, dicts);
    } else {
      SumKept(s, s', doc.fields[..k]);
    }
  }

  lemma {:induction false} SettledKept(s: Sizes, s': Sizes, doc: Doc)
    requires Settled(s, doc) && Extends(s, s')
    ensures Settled(s', doc)
    decreases doc, 1, 0
  {
    SettledToKept(s, s', doc, |doc.fields|);
    SumKept(s, s', doc.fields);
  }

  lemma {:induction false} SettledToKept(s: Sizes, s': Sizes, doc: Doc, k: nat)
    requires doc.Struct? && k <= |doc.fields| && SettledTo(s, doc, k) && Extends(s, s')
    ensures SettledTo(s', doc, k)
    decreases doc, 0, k
  {
    if k == 0 {
    } else {
      SettledToKept(s, s', doc, k - 1);
      if doc.fields[k - 1].Struct? { SettledKept(s, s', doc.fields[k - 1]); }
    }
  }

  lemma {:induction false} SettledHaveSizes(s: Sizes, doc: Doc, k: nat)
    requires doc.Struct? && k <= |doc.fields| && SettledTo(s, doc, k)
    ensures HaveSizes(s, doc.fields[..k])
  {
    if k == 0 {
    } else {
      SettledHaveSizes(s, doc, k - 1);
      assert doc.fields[..k] == doc.fields[..k - 1] + [doc.fields[k - 1]];
    }
  }

  /** Size conservation in a tree: if every struct has a number for its size and ends with its own '?', visiting the
      tree succeeds exactly if all sizes to be declared are whole bytes, and then the sizes of all structs at every
      level equal the sums of their fields. */
  lemma {:induction false} TreeSettles(s: Sizes, doc: Doc, k: nat)
    requires doc.Struct? && HasSize(s, doc) && k <= |doc.fields|
    requires Whole(s, doc, k) && Separate(doc, k) && SettledTo(s, doc, k)
    ensures Resolve(s, doc, k).Some? <==> WholeBytes(s, doc, k)
    ensures Resolve(s, doc, k).Some? ==>
      var s' := Resolve(s, doc, k).value;
      Extends(s, s') && Untouched(s, s', Fills(doc, k)) && Settled(s', doc)
    decreases doc, |doc.fields| - k
  {
    var f := doc.fields[k];
    if k + 1 == |doc.fields| {
      LastFieldSettles(s, doc, k);
    } else if f.Struct? {
      TreeSettles(s, f, 0);
      if Resolve(s, f, 0).Some? {
        StructSettles(s, doc, k, Resolve(s, f, 0).value);
        TreeSettles(Resolve(s, f, 0).value, doc, k + 1);
      }
    } else if HasType(PlainSize(s, f)) {
      TreeSettles(s, doc, k + 1);
    }
  }

  /** After a struct among the fields has been visited, everything is as before for the fields behind it. */
  lemma StructSettles(s: Sizes, doc: Doc, k: nat, s1: Sizes)
    requires doc.Struct? && HasSize(s, doc) && k + 1 < |doc.fields| && doc.fields[k].Struct?
    requires Whole(s, doc, k) && Separate(doc, k) && SettledTo(s, doc, k)
    requires Extends(s, s1) && Untouched(s, s1, Fills(doc.fields[k], 0)) && Settled(s1, doc.fields[k])
    ensures HasSize(s1, doc) && Whole(s1, doc, k + 1) && SettledTo(s1, doc, k + 1)
    ensures WholeBytes(s1, doc, k + 1) <==> WholeBytes(s, doc, k + 1)
  {
    WholeKept(s, s1, doc, k + 1, Fills(doc.fields[k], 0));
    SettledToKept(s, s1, doc, k);
    SettledHaveSizes(s, doc, k);
    assert doc.fields[..k + 1] == doc.fields[..k] + [doc.fields[k]];
    WholeBytesKept(s, s1, doc, k + 1, Fills(doc.fields[k], 0));
  }

  lemma LastFieldSettles(s: Sizes, doc: Doc, k: nat)
    requires doc.Struct? && HasSize(s, doc) && k + 1 == |doc.fields|
    requires Whole(s, doc, k) && SettledTo(s, doc, k)
    ensures Resolve(s, doc, k).Some? <==> WholeBytes(s, doc, k)
    ensures Resolve(s, doc, k).Some? ==>
      var s' := Resolve(s, doc, k).value;
      Extends(s, s') && Untouched(s, s', Fills(doc, k)) && Settled(s', doc)
  {
    var r := Read(s, doc, k);
    SettledHaveSizes(s, doc, k);
    ResolvedSizesAddUp(s, doc, k);
    SettledToKept(s, r.sizes, doc, k);
    assert Resolve(s, doc, k) == if HasType(r.size) then Some(r.sizes) else None;
    assert Fills(doc, k) == {doc.fields[k].dict} + Fills(doc, k + 1);
  }

  /** Visiting a settled tree again changes nothing. */
  lemma {:induction false} SettledStays(s: Sizes, doc: Doc, k: nat)
    requires doc.Struct? && k <= |doc.fields| && SettledTo(s, doc, |doc.fields|)
    ensures Resolve(s, doc, k) == Some(s)
    decreases doc, |doc.fields| - k
  {
    if k < |doc.fields| {
      SettledAt(s, doc, |doc.fields|, k);
      if doc.fields[k].Struct? { SettledStays(s, doc.fields[k], 0); }
      SettledStays(s, doc, k + 1);
    }
  }

  lemma {:induction false} SettledAt(s: Sizes, doc: Doc, n: nat, k: nat)
    requires doc.Struct? && k < n <= |doc.fields| && SettledTo(s, doc, n)
    ensures HasSize(s, doc.fields[k])
    ensures if doc.fields[k].Struct? then Settled(s, doc.fields[k]) else s[doc.fields[k].dict].n % 8 == 0
    decreases n
  {
    if k < n - 1 { SettledAt(s, doc, n - 1, k); }
  }

  /** The theorem for a whole tree: one visit settles it, unless it meets a size that is no whole number of bytes, and a
      second visit reads the same numbers. */
  lemma VisitSettlesTree(s: Sizes, doc: Doc)
    requires doc.Struct? && HasSize(s, doc) && Whole(s, doc, 0) && Separate(doc, 0)
    ensures Resolve(s, doc, 0).Some? <==> WholeBytes(s, doc, 0)
    ensures Resolve(s, doc, 0).Some? ==>
      var s' := Resolve(s, doc, 0).value; Settled(s', doc) && Resolve(s', doc, 0) == Some(s')
  {
    TreeSettles(s, doc, 0);
    if Resolve(s, doc, 0).Some? { SettledStays(Resolve(s, doc, 0).value, doc, 0); }
  }
}
