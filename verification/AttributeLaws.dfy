/** Laws of Serialize, Deserialize and Signature, for every attribute tree and every data. */
module AttributeLaws {
  import opened AttributeTree
  import opened Common

  // ---------- round trip ----------

  /** The trees that survive a trip through Serialize and back into their own signature. */
  predicate RoundTrippable(a: Attributes)
    decreases a
  {
    forall k | k in a.attrs :: RoundTrippableOne(a.attrs[k])
  }

  predicate RoundTrippableOne(x: Attribute)
    decreases x
  {
    if IsScalarType(x.typ) then
      !x.value.Raw? && !x.value.Data? && (x.value.List? ==> NoMaps(x.value.items))
    else if x.typ == ARRAY then
      x.value.List? && NoMaps(x.value.items) && forall i | 0 <= i < |x.value.items| :: !x.value.items[i].Tree?
    else x.typ == MAP && x.value.Tree? && RoundTrippable(x.value.tree)
  }

  predicate NoMaps(items: seq<Value>) {
    forall i | 0 <= i < |items| :: !items[i].Nil? && !items[i].Data? && !items[i].Raw?
  }

  /** Filling a tree's signature with its serialized data gives the tree back, without a panic on
      the way, exactly for the round-trippable trees. */
  lemma {:induction false} RoundTrip(a: Attributes)
    ensures CanSerialize(a) && CanFill(Serialize(a), Signature(a)) && Fill(Serialize(a), Signature(a)) == a
            <==> RoundTrippable(a)
    decreases a, 1
  {
    forall k | k in a.attrs
      ensures RestoresOne(a.attrs[k]) <==> RoundTrippableOne(a.attrs[k])
    {
      RoundTripOne(a.attrs[k]);
    }
    if RoundTrippable(a) {
      RestoresAll(a);
    }
    if CanSerialize(a) && CanFill(Serialize(a), Signature(a)) && Fill(Serialize(a), Signature(a)) == a {
      RestoresEach(a);
    }
  }

  lemma RestoresAll(a: Attributes)
    requires forall k | k in a.attrs :: RestoresOne(a.attrs[k])
    ensures CanSerialize(a) && CanFill(Serialize(a), Signature(a)) && Fill(Serialize(a), Signature(a)) == a
  {
    var s, g := Serialize(a), Signature(a);
    assert g.attrs.Keys == a.attrs.Keys == s.data.Keys;
    forall k | k in s.data ensures CanFillOne(s.data[k], g.attrs[k]) && FillOne(s.data[k], g.attrs[k]) == a.attrs[k] {
      assert RestoresOne(a.attrs[k]);
    }
    assert Fill(s, g).attrs == a.attrs;
  }

  lemma RestoresEach(a: Attributes)
    requires CanSerialize(a) && CanFill(Serialize(a), Signature(a)) && Fill(Serialize(a), Signature(a)) == a
    ensures forall k | k in a.attrs :: RestoresOne(a.attrs[k])
  {
    var s, g := Serialize(a), Signature(a);
    forall k | k in a.attrs ensures RestoresOne(a.attrs[k]) {
      assert k in Fill(s, g).attrs;
      assert IsSigned(a.attrs[k]) && k in s.data;
      assert Fill(s, g).attrs[k] == FillOne(s.data[k], g.attrs[k]);
    }
  }

  /** The round trip of one attribute. */
  predicate RestoresOne(x: Attribute) {
    && CanSerializeOne(x) && IsSigned(x)
    && CanFillOne(SerializeOne(x), SignatureOne(x))
    && FillOne(SerializeOne(x), SignatureOne(x)) == x
  }

  lemma {:induction false} RoundTripOne(x: Attribute)
    ensures RestoresOne(x) <==> RoundTrippableOne(x)
    decreases x, 0
  {
    hide RestoresOne, RoundTrippableOne;
    if x.typ == MAP && x.value.Tree? {
      RoundTrip(x.value.tree);
      MapRestores(x);
    } else if x.typ == ARRAY && x.value.List? {
      ListRestores(x.value.items);
      ArrayRestores(x);
    } else {
      ScalarRestores(x);
    }
  }

  lemma MapRestores(x: Attribute)
    requires x.typ == MAP && x.value.Tree?
    ensures RestoresOne(x) <==>
              var t := x.value.tree;
              CanSerialize(t) && CanFill(Serialize(t), Signature(t)) && Fill(Serialize(t), Signature(t)) == t
    ensures RoundTrippableOne(x) <==> RoundTrippable(x.value.tree)
  {
    hide CanSerialize, CanFill, Fill, Serialize, Signature, RoundTrippable;
  }

  lemma ArrayRestores(x: Attribute)
    requires x.typ == ARRAY && x.value.List?
    requires forall i | 0 <= i < |x.value.items| :: SerializeItems(x.value.items)[i].Nil? <==> x.value.items[i].Nil?
    requires KeptItems(SerializeItems(x.value.items)) == x.value.items <==>
               forall i | 0 <= i < |x.value.items| ::
                 !x.value.items[i].Data? && !x.value.items[i].Raw? && !x.value.items[i].Tree?
    ensures RestoresOne(x) <==> RoundTrippableOne(x)
  {
    hide CanSerialize, SerializeItems, KeptItems, SignatureItems;
  }

  lemma ScalarRestores(x: Attribute)
    requires !(x.typ == MAP && x.value.Tree?) && !(x.typ == ARRAY && x.value.List?)
    ensures RestoresOne(x) <==> RoundTrippableOne(x)
  {
    hide CanSerialize, CanFill, Fill, Serialize, Signature, RoundTrippable, KeptItems;
  }

  /** What KeptItems leaves of a serialized list is the list, exactly when no element was a set. */
  lemma ListRestores(items: seq<Value>)
    ensures KeptItems(SerializeItems(items)) == items <==>
              forall i | 0 <= i < |items| :: !items[i].Data? && !items[i].Raw? && !items[i].Tree?
    ensures forall i | 0 <= i < |items| :: SerializeItems(items)[i].Nil? <==> items[i].Nil?
  {
    hide KeptItems, Serialize;
    var out := SerializeItems(items);
    assert forall i | 0 <= i < |out| :: out[i] == SerializeItem(items[i]);
    if forall i | 0 <= i < |items| :: !items[i].Tree? {
      assert out == items;
    }
    if KeptItems(out) == items {
      KeptAll(out);
    }
  }

  lemma {:induction false} KeptAll(items: seq<Value>)
    ensures |KeptItems(items)| == |items| ==> KeptItems(items) == items
  {
    if items != [] {
      assert items == items[..|items| - 1] + [items[|items| - 1]];
      KeptAll(items[..|items| - 1]);
    }
  }

  // ---------- signatures ----------

  /** Signature is idempotent at every depth, arrays of attribute sets included. */
  lemma {:induction false} SignatureIdempotent(a: Attributes)
    ensures Signature(Signature(a)) == Signature(a)
    decreases a
  {
    forall k | k in a.attrs && IsSigned(a.attrs[k])
      ensures IsSigned(SignatureOne(a.attrs[k]))
      ensures SignatureOne(SignatureOne(a.attrs[k])) == SignatureOne(a.attrs[k])
    {
      var x := a.attrs[k];
      if x.typ == ARRAY && x.value.List? {
        SignatureItemsIdempotent(x.value.items);
      } else if x.typ == MAP && x.value.Tree? {
        SignatureIdempotent(x.value.tree);
      }
    }
    assert Signature(Signature(a)).attrs == Signature(a).attrs;
  }

  lemma {:induction false} SignatureItemsIdempotent(items: seq<Value>)
    ensures SignatureItems(SignatureItems(items)) == SignatureItems(items)
    decreases items
  {
    if items != [] {
      var init, last := items[..|items| - 1], items[|items| - 1];
      SignatureItemsIdempotent(init);
      if last.Tree? {
        SignatureItemIdempotent(last);
      }
      SignatureItemsAppend(SignatureItems(init), SignatureItem(last));
    }
  }

  lemma SignatureItemsAppend(init: seq<Value>, tail: seq<Value>)
    requires |tail| <= 1
    ensures SignatureItems(init + tail) == SignatureItems(init) + (if tail == [] then [] else SignatureItem(tail[0]))
  {
    if tail == [] {
      assert init + tail == init;
    } else {
      assert (init + tail)[..|init + tail| - 1] == init;
    }
  }

  lemma {:induction false} SignatureItemIdempotent(item: Value)
    requires item.Tree?
    ensures Signature(Signature(item.tree)) == Signature(item.tree)
    decreases item
  {
    SignatureIdempotent(item.tree);
  }

  // ---------- filling twice and merging ----------

  /** A second call with the same data changes nothing, says so, and cannot panic. */
  lemma {:induction false} FillTwice(show: Value -> string, d: AttributeValue, a: Attributes)
    ensures Fill(d, Fill(d, a)) == Fill(d, a)
    ensures !Changed(show, d, Fill(d, a))
    ensures CanFill(d, a) ==> CanFill(d, Fill(d, a))
    decreases d
  {
    forall k | k in d.data && k in a.attrs
      ensures FillOne(d.data[k], FillOne(d.data[k], a.attrs[k])) == FillOne(d.data[k], a.attrs[k])
      ensures !ChangedOne(show, d.data[k], FillOne(d.data[k], a.attrs[k]))
      ensures CanFillOne(d.data[k], a.attrs[k]) ==> CanFillOne(d.data[k], FillOne(d.data[k], a.attrs[k]))
    {
      FillOneTwice(show, d.data[k], a.attrs[k]);
    }
    assert Fill(d, Fill(d, a)).attrs == Fill(d, a).attrs;
  }

  lemma {:induction false} FillOneTwice(show: Value -> string, d: Value, x: Attribute)
    ensures FillOne(d, FillOne(d, x)) == FillOne(d, x)
    ensures !ChangedOne(show, d, FillOne(d, x))
    ensures CanFillOne(d, x) ==> CanFillOne(d, FillOne(d, x))
    decreases d
  {
    if d.Raw? && x.value.Raw? {
      FillTwice(show, d.fields, Rebuild(x.value.fields, d.fields));
    } else if (d.Raw? || d.Data?) && x.value.Tree? {
      FillTwice(show, d.fields, x.value.tree);
    }
  }

  /** Data fits a target when maps meet attribute sets, everything else meets non-sets, and unknown
      keys hold no list (Deserialize panics on that). */
  predicate Fits(d: AttributeValue, a: Attributes)
    decreases d
  {
    forall k | k in d.data ::
      if k in a.attrs then FitsOne(d.data[k], a.attrs[k]) else !d.data[k].List?
  }

  predicate FitsOne(d: Value, x: Attribute)
    decreases d
  {
    match d
    case Nil => true
    case Raw(f) => x.value.Tree? && Fits(f, x.value.tree)
    case Data(f) => x.value.Tree? && Fits(f, x.value.tree)
    case List(items) => !x.value.Tree? && !x.value.Raw? && forall i | 0 <= i < |items| :: !items[i].Nil?
    case Tree(_) => false
    case _ => !x.value.Tree? && !x.value.Raw?
  }

  /** Deep merge: nil never overrides, maps merge, everything else (lists too) replaces whole. */
  function Merge(d1: AttributeValue, d2: AttributeValue): AttributeValue
    decreases d1
  {
    AttributeValue(map k | k in d1.data.Keys + d2.data.Keys ::
                     if k !in d1.data then d2.data[k]
                     else if k !in d2.data then d1.data[k]
                     else MergeOne(d1.data[k], d2.data[k]))
  }

  function MergeOne(d1: Value, d2: Value): Value
    decreases d1
  {
    if d2.Nil? then d1
    else if (d1.Raw? || d1.Data?) && (d2.Raw? || d2.Data?) then Data(Merge(d1.fields, d2.fields))
    else d2
  }

  /** Two calls in a row leave the tree that one call with the merged data leaves, and none panics. */
  lemma {:induction false} MergeLaw(d1: AttributeValue, d2: AttributeValue, a: Attributes)
    requires Fits(d1, a) && Fits(d2, a)
    ensures Fill(d2, Fill(d1, a)) == Fill(Merge(d1, d2), a)
    ensures CanFill(d1, a) && CanFill(d2, Fill(d1, a)) && CanFill(Merge(d1, d2), a)
    ensures Fits(d2, Fill(d1, a)) && Fits(Merge(d1, d2), a)
    decreases d1
  {
    forall k | k in a.attrs && k in d1.data && k in d2.data ensures MergesOne(d1.data[k], d2.data[k], a.attrs[k]) {
      MergeLawOne(d1.data[k], d2.data[k], a.attrs[k]);
    }
    forall k | k in d1.data && k in a.attrs ensures CanFillOne(d1.data[k], a.attrs[k]) {
      FitsCanFill(d1.data[k], a.attrs[k]);
    }
    forall k | k in d2.data && k in a.attrs ensures CanFillOne(d2.data[k], a.attrs[k]) {
      FitsCanFill(d2.data[k], a.attrs[k]);
    }
    MergedFits(d1, d2, a);
    FitsAfterFirst(d1, d2, a);
    assert Fill(d2, Fill(d1, a)).attrs == Fill(Merge(d1, d2), a).attrs by {
      FillsMerge(d1, d2, a);
    }
  }

  /** The merge law of one entry. */
  predicate MergesOne(d1: Value, d2: Value, x: Attribute) {
    var m := MergeOne(d1, d2);
    && FillOne(d2, FillOne(d1, x)) == FillOne(m, x)
    && CanFillOne(d1, x) && CanFillOne(d2, FillOne(d1, x)) && CanFillOne(m, x)
    && FitsOne(d2, FillOne(d1, x)) && FitsOne(m, x)
  }

  ghost predicate Merges(d1: AttributeValue, d2: AttributeValue, a: Attributes) {
    && Fits(d1, a) && Fits(d2, a)
    && (forall k | k in d1.data && k in a.attrs :: CanFillOne(d1.data[k], a.attrs[k]))
    && (forall k | k in d2.data && k in a.attrs :: CanFillOne(d2.data[k], a.attrs[k]))
    && (forall k | k in d1.data && k in d2.data && k in a.attrs :: MergesOne(d1.data[k], d2.data[k], a.attrs[k]))
  }

  lemma MergedFits(d1: AttributeValue, d2: AttributeValue, a: Attributes)
    requires Merges(d1, d2, a)
    ensures Fits(Merge(d1, d2), a) && CanFill(Merge(d1, d2), a)
  {
    hide FillOne, CanFillOne, FitsOne, MergeOne, Fill;
    var m := Merge(d1, d2);
    forall k | k in m.data
      ensures k in a.attrs ==> FitsOne(m.data[k], a.attrs[k]) && CanFillOne(m.data[k], a.attrs[k])
      ensures k !in a.attrs ==> !m.data[k].List?
    {
      if k in d1.data && k in d2.data {
        assert m.data[k] == MergeOne(d1.data[k], d2.data[k]);
        if k in a.attrs {
          assert MergesOne(d1.data[k], d2.data[k], a.attrs[k]);
        } else {
          MergeOneList(d1.data[k], d2.data[k]);
        }
      }
    }
  }

  lemma MergeOneList(d1: Value, d2: Value)
    ensures MergeOne(d1, d2).List? ==> d1.List? || d2.List?
  {
  }

  lemma FitsAfterFirst(d1: AttributeValue, d2: AttributeValue, a: Attributes)
    requires Merges(d1, d2, a)
    ensures CanFill(d1, a) && Fits(d2, Fill(d1, a)) && CanFill(d2, Fill(d1, a))
  {
    hide FillOne, CanFillOne, FitsOne, MergeOne, Merge;
    var b := Fill(d1, a);
    forall k | k in d2.data && k in b.attrs
      ensures FitsOne(d2.data[k], b.attrs[k]) && CanFillOne(d2.data[k], b.attrs[k])
    {
      if k in d1.data {
        assert MergesOne(d1.data[k], d2.data[k], a.attrs[k]);
      }
    }
  }

  lemma FillsMerge(d1: AttributeValue, d2: AttributeValue, a: Attributes)
    requires Merges(d1, d2, a)
    ensures Fill(d2, Fill(d1, a)).attrs == Fill(Merge(d1, d2), a).attrs
  {
    hide FillOne, CanFillOne, FitsOne, MergeOne, Fits, CanFill;
    forall k | k in a.attrs
      ensures Fill(d2, Fill(d1, a)).attrs[k] == Fill(Merge(d1, d2), a).attrs[k]
    {
      if k in d1.data && k in d2.data {
        assert MergesOne(d1.data[k], d2.data[k], a.attrs[k]);
      }
    }
  }

  lemma {:induction false} MergeLawOne(d1: Value, d2: Value, x: Attribute)
    requires FitsOne(d1, x) && FitsOne(d2, x)
    ensures MergesOne(d1, d2, x)
    decreases d1
  {
    FitsCanFill(d1, x);
    FitsCanFill(d2, x);
    if (d1.Raw? || d1.Data?) && (d2.Raw? || d2.Data?) {
      MergeLaw(d1.fields, d2.fields, x.value.tree);
    } else if d1.Raw? || d1.Data? {
      assert d2.Nil?;
    }
  }

  lemma {:induction false} FitsCanFill(d: Value, x: Attribute)
    requires FitsOne(d, x)
    ensures CanFillOne(d, x)
    decreases d
  {
    if d.Raw? || d.Data? {
      forall k | k in d.fields.data && k in x.value.tree.attrs
        ensures CanFillOne(d.fields.data[k], x.value.tree.attrs[k])
      {
        FitsCanFill(d.fields.data[k], x.value.tree.attrs[k]);
      }
    }
  }

  // ---------- shape ----------

  /** Same keys, names and types at every depth; values that are not attribute sets may differ. */
  predicate SameShape(a: Attributes, b: Attributes)
    decreases a
  {
    a.attrs.Keys == b.attrs.Keys && forall k | k in a.attrs :: SameShapeOne(a.attrs[k], b.attrs[k])
  }

  predicate SameShapeOne(x: Attribute, y: Attribute)
    decreases x
  {
    && x.name == y.name && x.typ == y.typ
    && (x.value.Tree? <==> y.value.Tree?)
    && (x.value.Tree? ==> SameShape(x.value.tree, y.value.tree))
  }

  /** No datum overwrites an attribute set or puts one where there was none, at any depth. */
  predicate KeepsShape(d: AttributeValue, a: Attributes)
    decreases d
  {
    forall k | k in d.data && k in a.attrs :: KeepsShapeOne(d.data[k], a.attrs[k])
  }

  predicate KeepsShapeOne(d: Value, x: Attribute)
    decreases d
  {
    match d
    case Nil => true
    case Raw(f) => if x.value.Tree? then KeepsShape(f, x.value.tree) else !x.value.Raw?
    case Data(f) => x.value.Tree? ==> KeepsShape(f, x.value.tree)
    case Tree(t) => x.value.Tree? && SameShape(t, x.value.tree)
    case _ => !x.value.Tree?
  }

  /** Deserialize keeps every key, name and type, at any depth, exactly under KeepsShape. */
  lemma {:induction false} ShapeKept(d: AttributeValue, a: Attributes)
    ensures SameShape(Fill(d, a), a) <==> KeepsShape(d, a)
    decreases d
  {
    forall k | k in a.attrs ensures SameShapeOne(a.attrs[k], a.attrs[k]) {
      SameShapeReflexive(a.attrs[k]);
    }
    forall k | k in d.data && k in a.attrs
      ensures SameShapeOne(FillOne(d.data[k], a.attrs[k]), a.attrs[k]) <==> KeepsShapeOne(d.data[k], a.attrs[k])
    {
      ShapeKeptOne(d.data[k], a.attrs[k]);
    }
    if SameShape(Fill(d, a), a) {
      forall k | k in d.data && k in a.attrs ensures KeepsShapeOne(d.data[k], a.attrs[k]) {
        assert k in Fill(d, a).attrs;
      }
    }
  }

  lemma {:induction false} ShapeKeptOne(d: Value, x: Attribute)
    ensures SameShapeOne(FillOne(d, x), x) <==> KeepsShapeOne(d, x)
    decreases d
  {
    SameShapeReflexive(x);
    if (d.Raw? || d.Data?) && x.value.Tree? {
      ShapeKept(d.fields, x.value.tree);
    }
  }

  lemma {:induction false} SameShapeReflexive(x: Attribute)
    ensures SameShapeOne(x, x)
    decreases x
  {
    if x.value.Tree? {
      forall k | k in x.value.tree.attrs ensures SameShapeOne(x.value.tree.attrs[k], x.value.tree.attrs[k]) {
        SameShapeReflexive(x.value.tree.attrs[k]);
      }
    }
  }

  // ---------- change detection ----------

  /** The datum found by following `path` through nested maps. */
  function DatumAt(d: AttributeValue, path: seq<string>): Option<Value>
    requires path != []
    decreases path
  {
    if path[0] !in d.data then None
    else
      var v := d.data[path[0]];
      if |path| == 1 then Some(v)
      else if v.Raw? || v.Data? then DatumAt(v.fields, path[1..])
      else None
  }

  /** The attribute found by following `path` through nested attribute sets. */
  function AttributeAt(a: Attributes, path: seq<string>): Option<Attribute>
    requires path != []
    decreases path
  {
    if path[0] !in a.attrs then None
    else
      var x := a.attrs[path[0]];
      if |path| == 1 then Some(x)
      else if x.value.Tree? then AttributeAt(x.value.tree, path[1..])
      else None
  }

  /** A scalar datum at `path` whose text differs from the text of the value it meets. */
  predicate DiffersAt(show: Value -> string, d: AttributeValue, a: Attributes, path: seq<string>) {
    && path != []
    && DatumAt(d, path).Some? && AttributeAt(a, path).Some?
    && IsScalarDatum(DatumAt(d, path).value)
    && show(DatumAt(d, path).value) != show(AttributeAt(a, path).value.value)
  }

  /** A rebuilt set holds the data already, so filling it reports nothing. */
  lemma {:induction false} RebuildReportsNothing(show: Value -> string, sig: AttributeValue, d: AttributeValue)
    ensures !Changed(show, d, Rebuild(sig, d))
    decreases d
  {
    var a := Rebuild(sig, d);
    forall k | k in d.data && k in a.attrs ensures !ChangedOne(show, d.data[k], a.attrs[k]) {
      if d.data[k].Raw? {
        RebuildReportsNothing(show, d.data[k].fields, d.data[k].fields);
      }
    }
  }

  /** Deserialize reports a change exactly when some scalar datum at an existing path, at any depth,
      prints differently from the old value there. */
  lemma {:induction false} ChangedExactly(show: Value -> string, d: AttributeValue, a: Attributes)
    ensures Changed(show, d, a) <==> exists path :: DiffersAt(show, d, a, path)
    decreases d
  {
    if Changed(show, d, a) {
      var path := ChangedPath(show, d, a);
    }
    if path :| DiffersAt(show, d, a, path) {
      PathChanges(show, d, a, path);
    }
  }

  lemma {:induction false} ChangedPath(show: Value -> string, d: AttributeValue, a: Attributes)
    returns (path: seq<string>)
    requires Changed(show, d, a)
    ensures DiffersAt(show, d, a, path)
    decreases d
  {
    var k :| k in d.data && k in a.attrs && ChangedOne(show, d.data[k], a.attrs[k]);
    var v, x := d.data[k], a.attrs[k];
    if v.Raw? && x.value.Raw? {
      RebuildReportsNothing(show, x.value.fields, v.fields);
      assert false;
    } else if v.Raw? || v.Data? {
      var rest := ChangedPath(show, v.fields, x.value.tree);
      path := [k] + rest;
      assert path[1..] == rest;
    } else {
      path := [k];
    }
  }

  lemma {:induction false} PathChanges(show: Value -> string, d: AttributeValue, a: Attributes, path: seq<string>)
    requires DiffersAt(show, d, a, path)
    ensures Changed(show, d, a)
    decreases path
  {
    var v, x := d.data[path[0]], a.attrs[path[0]];
    if |path| > 1 {
      PathChanges(show, v.fields, x.value.tree, path[1..]);
    }
    assert ChangedOne(show, v, x);
  }
}
