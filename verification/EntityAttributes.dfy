/** Attributes on their way through an entity: the state comparison that gates events, and the
    signature and storage columns that the entity adaptor writes and reads back. */
module EntityAttributes {
  import opened AttributeTree
  import opened AttributeLaws
  import opened Common

  // ---------- EventEntityState.Compare ----------

  datatype EntityState = EntityState(name: Option<string>, attributes: Attributes)

  predicate CompareAttribute(show: Value -> string, a: Attribute, b: Attribute) {
    a.typ != ARRAY && show(a.value) == show(b.value)
  }

  /** Reading an attribute that the other state lacks panics. */
  predicate Compare(show: Value -> string, e1: EntityState, e2: EntityState)
    requires e1.name.Some? && e2.name == e1.name ==> e1.attributes.attrs.Keys <= e2.attributes.attrs.Keys
  {
    && e1.name.Some? && e2.name.Some? && e1.name == e2.name
    && forall k | k in e1.attributes.attrs ::
         CompareAttribute(show, e2.attributes.attrs[k], e1.attributes.attrs[k])
  }

  predicate IsFlat(a: Attributes) {
    forall k | k in a.attrs :: !a.attrs[k].value.Tree? && !a.attrs[k].value.Raw?
  }

  /** A list datum whose stored form prints differently; Deserialize stores it without a report. */
  predicate ListDiffers(show: Value -> string, d: AttributeValue, a: Attributes) {
    exists k | k in d.data && k in a.attrs :: ListDiffersOne(show, d.data[k], a.attrs[k])
  }

  predicate ListDiffersOne(show: Value -> string, d: Value, x: Attribute) {
    d.List? && show(List(KeptItems(d.items))) != show(x.value)
  }

  predicate HasArrayType(a: Attributes) {
    exists k | k in a.attrs :: a.attrs[k].typ == ARRAY
  }

  /** Between the states before and after a Deserialize on a flat set, Compare finds them identical
      exactly when both are in the same named state, no change was reported, no list changed silently
      and no attribute is an array. */
  lemma CompareAfterFill(show: Value -> string, before: Option<string>, after: Option<string>,
                         d: AttributeValue, a: Attributes)
    requires IsFlat(a)
    ensures Compare(show, EntityState(before, a), EntityState(after, Fill(d, a)))
            <==> before.Some? && before == after
                 && !Changed(show, d, a) && !ListDiffers(show, d, a) && !HasArrayType(a)
  {
    hide FillOne, ChangedOne, KeptItems;
    var b := Fill(d, a);
    forall k | k in a.attrs && k in d.data
      ensures show(b.attrs[k].value) == show(a.attrs[k].value)
              <==> !ChangedOne(show, d.data[k], a.attrs[k]) && !ListDiffersOne(show, d.data[k], a.attrs[k])
    {
      CompareOne(show, d.data[k], a.attrs[k]);
    }
    assert forall k | k in a.attrs :: b.attrs[k].typ == a.attrs[k].typ by {
      forall k | k in d.data && k in a.attrs ensures FillOne(d.data[k], a.attrs[k]).typ == a.attrs[k].typ {
        CompareOne(show, d.data[k], a.attrs[k]);
      }
    }
    if k :| k in a.attrs && !CompareAttribute(show, b.attrs[k], a.attrs[k]) {
      assert a.attrs[k].typ == ARRAY || k in d.data;
    } else {
      forall k | k in a.attrs && k in d.data
        ensures !ChangedOne(show, d.data[k], a.attrs[k]) && !ListDiffersOne(show, d.data[k], a.attrs[k])
      {
        assert CompareAttribute(show, b.attrs[k], a.attrs[k]);
      }
      forall k | k in a.attrs ensures a.attrs[k].typ != ARRAY {
        assert CompareAttribute(show, b.attrs[k], a.attrs[k]);
      }
    }
  }

  lemma CompareOne(show: Value -> string, d: Value, x: Attribute)
    requires !x.value.Tree? && !x.value.Raw?
    ensures FillOne(d, x).typ == x.typ
    ensures show(FillOne(d, x).value) == show(x.value) <==> !ChangedOne(show, d, x) && !ListDiffersOne(show, d, x)
  {
    hide KeptItems;
  }

  /** A scalar datum whose text differs from the text of the value it meets. */
  predicate ScalarDiffers(show: Value -> string, d: AttributeValue, a: Attributes) {
    exists k | k in d.data && k in a.attrs ::
      IsScalarDatum(d.data[k]) && show(d.data[k]) != show(a.attrs[k].value)
  }

  /** On flat sets the flag is the negation of Compare exactly when some scalar differs, or else no list
      changes and no attribute is an array. */
  lemma ChangedIsNotCompare(show: Value -> string, name: string, d: AttributeValue, a: Attributes)
    requires IsFlat(a)
    ensures (Changed(show, d, a)
             <==> !Compare(show, EntityState(Some(name), a), EntityState(Some(name), Fill(d, a))))
            <==> ScalarDiffers(show, d, a) || (!ListDiffers(show, d, a) && !HasArrayType(a))
  {
    hide Compare, Fill, ListDiffers, HasArrayType, ChangedOne;
    CompareAfterFill(show, Some(name), Some(name), d, a);
    forall k | k in d.data && k in a.attrs
      ensures ChangedOne(show, d.data[k], a.attrs[k])
              <==> IsScalarDatum(d.data[k]) && show(d.data[k]) != show(a.attrs[k].value)
    {
      ChangedScalar(show, d.data[k], a.attrs[k]);
    }
  }

  lemma ChangedScalar(show: Value -> string, d: Value, x: Attribute)
    requires !x.value.Tree? && !x.value.Raw?
    ensures ChangedOne(show, d, x) <==> IsScalarDatum(d) && show(d) != show(x.value)
  {
  }

  /** A point filled for the first time: Compare sees it, the flag does not. */
  lemma ListChangeGoesUnreported(show: Value -> string, lon: Value, lat: Value)
    requires lon.Atom? && lat.Atom? && show(List([lon, lat])) != show(Nil)
    ensures var a := Attributes(map["point" := Attribute("point", "point", Nil)]);
            var d := AttributeValue(map["point" := List([lon, lat])]);
            && !Changed(show, d, a)
            && !Compare(show, EntityState(Some("on"), a), EntityState(Some("on"), Fill(d, a)))
  {
    var a := Attributes(map["point" := Attribute("point", "point", Nil)]);
    var d := AttributeValue(map["point" := List([lon, lat])]);
    assert KeptItems([lon, lat]) == [lon, lat];
    assert ListDiffersOne(show, d.data["point"], a.attrs["point"]);
    CompareAfterFill(show, Some("on"), Some("on"), d, a);
  }

  /** Same keys and values; names and types may differ. */
  predicate SameValues(a: Attributes, b: Attributes) {
    a.attrs.Keys == b.attrs.Keys && forall k | k in a.attrs :: a.attrs[k].value == b.attrs[k].value
  }

  /** The first state counts with its keys and values only, and the second only where the first has a
      key: what else it has, and the types of the first, make no difference. */
  lemma CompareIsOneSided(show: Value -> string, e1: EntityState, f1: EntityState, e2: EntityState, f2: EntityState)
    requires e1.attributes.attrs.Keys <= e2.attributes.attrs.Keys
    requires f1.name == e1.name && SameValues(f1.attributes, e1.attributes)
    requires f2.name == e2.name && e1.attributes.attrs.Keys <= f2.attributes.attrs.Keys
    requires forall k | k in e1.attributes.attrs :: f2.attributes.attrs[k] == e2.attributes.attrs[k]
    ensures Compare(show, e1, e2) <==> Compare(show, f1, f2)
  {
    forall k | k in e1.attributes.attrs
      ensures CompareAttribute(show, e2.attributes.attrs[k], e1.attributes.attrs[k])
              <==> CompareAttribute(show, f2.attributes.attrs[k], f1.attributes.attrs[k])
    {
    }
  }

  /** If different values print differently, states compare as identical exactly when they have the same
      name and the second has every value of the first, none of them in an array. */
  lemma ComparesValues(show: Value -> string, e1: EntityState, e2: EntityState)
    requires forall v, w :: show(v) == show(w) ==> v == w
    requires e1.attributes.attrs.Keys <= e2.attributes.attrs.Keys
    ensures Compare(show, e1, e2) <==>
              && e1.name.Some? && e2.name == e1.name
              && forall k | k in e1.attributes.attrs ::
                   var x, y := e1.attributes.attrs[k], e2.attributes.attrs[k]; y.typ != "array" && y.value == x.value
  {
  }

  // ---------- JSON columns ----------

  /** How JSON rewrites atoms that are not strings: numbers become floats, times become strings. */
  type Norm = (Kind, string) -> (Kind, string)

  function JsonAtom(norm: Norm, kind: Kind, text: string): Value {
    if kind == String then Atom(String, text)
    else var (k, t) := norm(kind, text); Atom(k, t)
  }

  /** A value encoded as JSON and decoded into an empty interface. */
  function Json(norm: Norm, v: Value): Value
    decreases v
  {
    match v
    case Nil => Nil
    case Atom(kind, text) => JsonAtom(norm, kind, text)
    case Strings(strs) => List(seq(|strs|, i requires 0 <= i < |strs| => Atom(String, strs[i])))
    case List(items) => List(seq(|items|, i requires 0 <= i < |items| => Json(norm, items[i])))
    case Tree(t) => Raw(AttributesJson(norm, t))
    case Data(f) => Raw(FieldsJson(norm, f))
    case Raw(f) => Raw(FieldsJson(norm, f))
  }

  function FieldsJson(norm: Norm, f: AttributeValue): AttributeValue
    decreases f
  {
    AttributeValue(map k | k in f.data :: Json(norm, f.data[k]))
  }

  function AttributesJson(norm: Norm, a: Attributes): AttributeValue
    decreases a
  {
    AttributeValue(map k | k in a.attrs :: Raw(AttributeJson(norm, a.attrs[k])))
  }

  /** An empty value is omitted. */
  function AttributeJson(norm: Norm, x: Attribute): AttributeValue
    decreases x
  {
    var head := map["name" := Atom(String, x.name), "type" := Atom(String, x.typ)];
    AttributeValue(if x.value.Nil? then head else head["value" := Json(norm, x.value)])
  }

  /** The payload column decoded: attributes on top, generic values below. */
  function DecodeSignature(column: AttributeValue): Attributes {
    Attributes(map k | k in column.data && column.data[k].Raw? :: DecodeOne(column.data[k].fields))
  }

  function DecodeOne(f: AttributeValue): Attribute {
    Attribute(TextField(f, "name"), TextField(f, "type"),
              if "value" in f.data then f.data["value"] else Nil)
  }

  /** The payload column written for an entity with these attributes. */
  function StoredSignature(norm: Norm, a: Attributes): AttributeValue {
    AttributesJson(norm, Signature(a))
  }

  /** The newest storage row written for these attributes. */
  function StoredValues(norm: Norm, a: Attributes): AttributeValue {
    FieldsJson(norm, Serialize(a))
  }

  /** The attributes of the loaded entity: a signature filled from the newest row, if there is one. */
  function Load(column: AttributeValue, row: Option<AttributeValue>): Attributes {
    match row
    case None => DecodeSignature(column)
    case Some(d) => Fill(d, DecodeSignature(column))
  }

  // ---------- what the columns keep ----------

  /** Values as JSON decodes them. */
  predicate IsJson(norm: Norm, v: Value)
    decreases v
  {
    match v
    case Nil => true
    case Atom(kind, text) => kind == String || norm(kind, text) == (kind, text)
    case List(items) => forall i | 0 <= i < |items| :: IsJson(norm, items[i])
    case Raw(f) => forall k | k in f.data :: IsJson(norm, f.data[k])
    case _ => false
  }

  /** Values as JSON decodes them stay as they are. */
  lemma {:induction false} JsonFixed(norm: Norm, v: Value)
    requires IsJson(norm, v)
    ensures Json(norm, v) == v
    decreases v
  {
    match v {
      case List(items) =>
        forall i | 0 <= i < |items| ensures Json(norm, items[i]) == items[i] {
          JsonFixed(norm, items[i]);
        }
        assert Json(norm, v).items == items;
      case Raw(f) =>
        forall k | k in f.data ensures Json(norm, f.data[k]) == f.data[k] {
          JsonFixed(norm, f.data[k]);
        }
        assert FieldsJson(norm, f).data == f.data;
      case _ =>
    }
  }

  /** A list of strings and a typed map are encoded like the generic list and map with their contents. */
  lemma JsonForgetsTypes(norm: Norm, strs: seq<string>, f: AttributeValue)
    ensures Json(norm, Strings(strs))
            == Json(norm, List(seq(|strs|, i requires 0 <= i < |strs| => Atom(String, strs[i]))))
    ensures Json(norm, Data(f)) == Json(norm, Raw(f))
  {
    var atoms := seq(|strs|, i requires 0 <= i < |strs| => Atom(String, strs[i]));
    forall i | 0 <= i < |atoms| ensures Json(norm, atoms[i]) == Atom(String, strs[i]) {
      JsonFixed(norm, atoms[i]);
    }
    assert Json(norm, List(atoms)).items == atoms;
  }

  /** Attributes that are encoded and decoded keep key, name and type, and their value as JSON has it. */
  lemma DecodesSignature(norm: Norm, a: Attributes)
    ensures var b := DecodeSignature(AttributesJson(norm, a));
            && b.attrs.Keys == a.attrs.Keys
            && forall k | k in a.attrs ::
                 && b.attrs[k].name == a.attrs[k].name && b.attrs[k].typ == a.attrs[k].typ
                 && b.attrs[k].value == Json(norm, a.attrs[k].value)
  {
    hide Json, TextField, HasText;
    forall k | k in a.attrs
      ensures var f := AttributeJson(norm, a.attrs[k]);
              && TextField(f, "name") == a.attrs[k].name && TextField(f, "type") == a.attrs[k].typ
              && (if "value" in f.data then f.data["value"] else Nil) == Json(norm, a.attrs[k].value)
    {
      AttributeJsonTexts(norm, a.attrs[k]);
      JsonFixed(norm, Nil);
    }
  }

  /** Without a storage row the entity has its signature: known keys, names and types, no scalar values,
      and the signatures of maps as generic maps. */
  lemma LoadWithoutRow(norm: Norm, a: Attributes)
    ensures var b := Load(StoredSignature(norm, a), None);
            && b.attrs.Keys == Signature(a).attrs.Keys
            && forall k | k in b.attrs :: IsSigned(a.attrs[k]) && Unfilled(a.attrs[k], b.attrs[k])
  {
    hide Unfilled, SignatureOne, IsSigned, AttributesJson, DecodeSignature, Json;
    DecodesSignature(norm, Signature(a));
    forall k | k in Signature(a).attrs
      ensures IsSigned(a.attrs[k])
      ensures Unfilled(a.attrs[k], SignatureOne(a.attrs[k]).(value := Json(norm, SignatureOne(a.attrs[k]).value)))
    {
      UnfilledOne(norm, a.attrs[k]);
    }
  }

  predicate Unfilled(x: Attribute, y: Attribute)
    requires IsSigned(x)
  {
    && y.name == x.name && y.typ == x.typ
    && (IsScalarType(x.typ) ==> y.value == Nil)
    && (x.typ == MAP ==> y.value.Raw? && y.value.fields.data.Keys == Signature(x.value.tree).attrs.Keys)
  }

  lemma UnfilledOne(norm: Norm, x: Attribute)
    requires IsSigned(x)
    ensures Unfilled(x, SignatureOne(x).(value := Json(norm, SignatureOne(x).value)))
  {
    hide SignatureItems, Signature;
  }

  /** The tree that was saved, with names and types, and values as JSON rewrites them. */
  function Normalised(norm: Norm, a: Attributes): Attributes
    decreases a
  {
    Attributes(map k | k in a.attrs :: NormalisedOne(norm, a.attrs[k]))
  }

  function NormalisedOne(norm: Norm, x: Attribute): Attribute
    decreases x
  {
    x.(value := if x.typ == MAP && x.value.Tree? then Tree(Normalised(norm, x.value.tree))
                else Json(norm, x.value))
  }

  /** Plain values, and maps of plain values whose own maps are empty. */
  predicate Loadable(a: Attributes) {
    forall k | k in a.attrs :: LoadableOne(a.attrs[k])
  }

  predicate LoadableOne(x: Attribute) {
    if x.typ == MAP && x.value.Tree? then LoadableInside(x.value.tree) else PlainValue(x.value)
  }

  predicate LoadableInside(t: Attributes) {
    forall k | k in t.attrs :: LoadableInner(t.attrs[k])
  }

  predicate LoadableInner(y: Attribute) {
    if y.typ == MAP && y.value.Tree? then y.value.tree.attrs == map[] else PlainValue(y.value)
  }

  predicate PlainValue(v: Value) {
    !v.Tree? && (v.List? ==> forall i | 0 <= i < |v.items| :: !v.items[i].Tree?)
  }

  /** Loading this attribute from its two columns gives it back normalised, without a panic. */
  predicate LoadsOne(norm: Norm, x: Attribute) {
    && IsSigned(x)
    && FillsTo(Json(norm, SerializeOne(x)), DecodeOne(AttributeJson(norm, SignatureOne(x))), NormalisedOne(norm, x))
  }

  predicate FillsTo(d: Value, x: Attribute, want: Attribute) {
    CanFillOne(d, x) && FillOne(d, x) == want
  }

  predicate AllSigned(a: Attributes) {
    forall k | k in a.attrs :: IsSigned(a.attrs[k])
  }

  /** Saving and loading gives the normalised tree, without a panic, exactly for the round-trippable
      trees that are loadable: the rebuild step keeps signatures one level deep and no deeper. */
  lemma LoadRestores(norm: Norm, a: Attributes)
    ensures var column, row := StoredSignature(norm, a), StoredValues(norm, a);
            CanFill(row, DecodeSignature(column)) && Load(column, Some(row)) == Normalised(norm, a)
            <==> RoundTrippable(a) && Loadable(a)
  {
    hide LoadsOne, LoadableOne, RoundTrippableOne, IsSigned, Fill, CanFill;
    hide DecodeOne, Json, AttributeJson, SignatureOne, SerializeOne;
    if AllSigned(a) {
      forall k | k in a.attrs
        ensures LoadsOne(norm, a.attrs[k]) <==> RoundTrippableOne(a.attrs[k]) && LoadableOne(a.attrs[k])
      {
        LoadsExactly(norm, a.attrs[k]);
      }
      Columns(norm, a);
      LoadEach(norm, a, DecodeSignature(StoredSignature(norm, a)), StoredValues(norm, a), Normalised(norm, a));
    } else {
      var k :| k in a.attrs && !IsSigned(a.attrs[k]);
      NotSigned(a.attrs[k]);
      assert k !in DecodeSignature(StoredSignature(norm, a)).attrs && k in Normalised(norm, a).attrs;
      SameKeys(StoredValues(norm, a), DecodeSignature(StoredSignature(norm, a)));
    }
  }

  lemma NotSigned(x: Attribute)
    requires !IsSigned(x)
    ensures !RoundTrippableOne(x)
  {
  }

  lemma SameKeys(d: AttributeValue, a: Attributes)
    ensures Fill(d, a).attrs.Keys == a.attrs.Keys
  {
  }

  lemma LoadEach(norm: Norm, a: Attributes, sig: Attributes, row: AttributeValue, want: Attributes)
    requires sig.attrs.Keys == row.data.Keys == want.attrs.Keys == a.attrs.Keys
    requires forall k | k in a.attrs ::
               && IsSigned(a.attrs[k])
               && sig.attrs[k] == DecodeOne(AttributeJson(norm, SignatureOne(a.attrs[k])))
               && row.data[k] == Json(norm, SerializeOne(a.attrs[k]))
               && want.attrs[k] == NormalisedOne(norm, a.attrs[k])
    ensures CanFill(row, sig) && Fill(row, sig) == want <==> forall k | k in a.attrs :: LoadsOne(norm, a.attrs[k])
  {
    FillEach(row, sig, want);
    forall k | k in a.attrs
      ensures LoadsOne(norm, a.attrs[k]) <==> FillsTo(row.data[k], sig.attrs[k], want.attrs[k])
    {
    }
  }

  /** A filled tree is `want` exactly when each attribute is. */
  lemma FillEach(row: AttributeValue, sig: Attributes, want: Attributes)
    requires sig.attrs.Keys == row.data.Keys == want.attrs.Keys
    ensures CanFill(row, sig) && Fill(row, sig) == want
            <==> forall k | k in want.attrs :: FillsTo(row.data[k], sig.attrs[k], want.attrs[k])
  {
    if forall k | k in want.attrs :: FillsTo(row.data[k], sig.attrs[k], want.attrs[k]) {
      assert Fill(row, sig).attrs == want.attrs;
    }
    if CanFill(row, sig) && Fill(row, sig) == want {
      forall k | k in want.attrs ensures FillsTo(row.data[k], sig.attrs[k], want.attrs[k]) {
        assert Fill(row, sig).attrs[k] == want.attrs[k];
      }
    }
  }

  /** What the two columns hold for each attribute. */
  lemma Columns(norm: Norm, a: Attributes)
    requires AllSigned(a)
    ensures var sig, row := DecodeSignature(StoredSignature(norm, a)), StoredValues(norm, a);
            && sig.attrs.Keys == row.data.Keys == a.attrs.Keys
            && forall k | k in a.attrs ::
                 && IsSigned(a.attrs[k])
                 && sig.attrs[k] == DecodeOne(AttributeJson(norm, SignatureOne(a.attrs[k])))
                 && row.data[k] == Json(norm, SerializeOne(a.attrs[k]))
  {
    hide Json, AttributeJson, SignatureOne, SerializeOne, DecodeOne;
    forall k | k in a.attrs ensures k in Signature(a).attrs && k in Serialize(a).data {
      assert IsSigned(a.attrs[k]) && IsSerialized(a.attrs[k]);
    }
  }

  lemma LoadsExactly(norm: Norm, x: Attribute)
    requires IsSigned(x)
    ensures LoadsOne(norm, x) <==> RoundTrippableOne(x) && LoadableOne(x)
  {
    hide Fill, CanFill, FieldsJson, AttributesJson, Serialize, Signature, Normalised;
    hide LoadableInside, RoundTrippable;
    if x.typ == MAP {
      MapColumns(norm, x);
      InsideLoads(norm, x.value.tree);
    } else {
      hide SerializeOne, NormalisedOne, RoundTrippableOne;
      PlainSignature(norm, x);
      PlainLoads(norm, x, DecodeOne(AttributeJson(norm, SignatureOne(x))));
    }
  }

  lemma MapColumns(norm: Norm, x: Attribute)
    requires x.typ == MAP && x.value.Tree?
    ensures Json(norm, SerializeOne(x)) == Raw(FieldsJson(norm, Serialize(x.value.tree)))
    ensures DecodeOne(AttributeJson(norm, SignatureOne(x)))
            == x.(value := Raw(AttributesJson(norm, Signature(x.value.tree))))
  {
    hide FieldsJson, AttributesJson, Serialize, Signature, TextField, HasText;
    var stripped := SignatureOne(x);
    assert stripped == x.(value := Tree(Signature(x.value.tree)));
    AttributeJsonTexts(norm, stripped);
  }

  lemma InsideLoads(norm: Norm, t: Attributes)
    ensures var f, r := FieldsJson(norm, Serialize(t)), AttributesJson(norm, Signature(t));
            CanRebuild(r) && (CanFill(f, Rebuild(r, f)) && Fill(f, Rebuild(r, f)) == Normalised(norm, t)
                              <==> RoundTrippable(t) && LoadableInside(t))
  {
    var f, r := FieldsJson(norm, Serialize(t)), AttributesJson(norm, Signature(t));
    hide InnerLoads, LoadableInner, RoundTrippableOne, IsSigned, Fill, CanFill, SerializeOne, SignatureOne;
    hide Json, FieldsJson, AttributesJson, Rebuild, Serialize, CanRebuild;
    SignatureRebuilds(norm, Signature(t), f);
    if AllSigned(t) {
      forall k | k in t.attrs
        ensures InnerLoads(norm, t.attrs[k]) <==> RoundTrippableOne(t.attrs[k]) && LoadableInner(t.attrs[k])
      {
        InnerLoadsExactly(norm, t.attrs[k]);
      }
      Rebuilt(norm, t);
      RebuiltEach(norm, t, f, Rebuild(r, f), Normalised(norm, t));
    } else {
      var k :| k in t.attrs && !IsSigned(t.attrs[k]);
      NotSigned(t.attrs[k]);
      assert k !in Signature(t).attrs && k in Normalised(norm, t).attrs;
      SameKeys(f, Rebuild(r, f));
    }
  }

  /** A stored signature always rebuilds, with its own keys. */
  lemma SignatureRebuilds(norm: Norm, sig: Attributes, f: AttributeValue)
    ensures var r := AttributesJson(norm, sig);
            CanRebuild(r) && Rebuild(r, f).attrs.Keys == sig.attrs.Keys
  {
    hide Json, AttributeJson, TextField, HasText;
    var r := AttributesJson(norm, sig);
    forall k | k in sig.attrs
      ensures k in r.data && r.data[k].Raw? && HasText(r.data[k].fields, "name") && HasText(r.data[k].fields, "type")
    {
      AttributeJsonTexts(norm, sig.attrs[k]);
    }
  }

  /** The rebuilt attributes have the saved names and types, and the row's values. */
  lemma Rebuilt(norm: Norm, t: Attributes)
    requires AllSigned(t)
    ensures var f, r := FieldsJson(norm, Serialize(t)), AttributesJson(norm, Signature(t));
            && CanRebuild(r)
            && Rebuild(r, f).attrs.Keys == f.data.Keys == t.attrs.Keys
            && forall k | k in t.attrs ::
                 && f.data[k] == Json(norm, SerializeOne(t.attrs[k]))
                 && Rebuild(r, f).attrs[k] == t.attrs[k].(value := f.data[k])
  {
    hide Json, SerializeOne, AttributesJson, CanRebuild, Rebuild;
    forall k | k in t.attrs ensures IsSigned(t.attrs[k]) && IsSerialized(t.attrs[k]) {
    }
    assert forall k | k in t.attrs :: Signature(t).attrs[k] == SignatureOne(t.attrs[k]);
    RebuiltFrom(norm, t, Signature(t), FieldsJson(norm, Serialize(t)));
  }

  lemma RebuiltFrom(norm: Norm, t: Attributes, sig: Attributes, f: AttributeValue)
    requires sig.attrs.Keys == f.data.Keys == t.attrs.Keys
    requires forall k | k in t.attrs :: sig.attrs[k].name == t.attrs[k].name && sig.attrs[k].typ == t.attrs[k].typ
    ensures var r := AttributesJson(norm, sig);
            && CanRebuild(r)
            && Rebuild(r, f).attrs.Keys == t.attrs.Keys
            && forall k | k in t.attrs :: Rebuild(r, f).attrs[k] == t.attrs[k].(value := f.data[k])
  {
    hide Json, AttributeJson, TextField, HasText;
    var r := AttributesJson(norm, sig);
    forall k | k in sig.attrs
      ensures k in r.data && r.data[k].Raw?
      ensures HasText(r.data[k].fields, "name") && TextField(r.data[k].fields, "name") == sig.attrs[k].name
      ensures HasText(r.data[k].fields, "type") && TextField(r.data[k].fields, "type") == sig.attrs[k].typ
    {
      AttributeJsonTexts(norm, sig.attrs[k]);
    }
  }

  lemma AttributeJsonTexts(norm: Norm, x: Attribute)
    ensures var f := AttributeJson(norm, x);
            && HasText(f, "name") && TextField(f, "name") == x.name
            && HasText(f, "type") && TextField(f, "type") == x.typ
  {
  }

  lemma RebuiltEach(norm: Norm, t: Attributes, f: AttributeValue, sig: Attributes, want: Attributes)
    requires sig.attrs.Keys == f.data.Keys == want.attrs.Keys == t.attrs.Keys
    requires forall k | k in t.attrs ::
               && f.data[k] == Json(norm, SerializeOne(t.attrs[k]))
               && sig.attrs[k] == t.attrs[k].(value := f.data[k])
               && want.attrs[k] == NormalisedOne(norm, t.attrs[k])
    ensures CanFill(f, sig) && Fill(f, sig) == want <==> forall k | k in t.attrs :: InnerLoads(norm, t.attrs[k])
  {
    FillEach(f, sig, want);
    forall k | k in t.attrs
      ensures InnerLoads(norm, t.attrs[k]) <==> FillsTo(f.data[k], sig.attrs[k], want.attrs[k])
    {
    }
  }

  /** Inside a rebuilt map the target's value is the datum itself. */
  predicate InnerLoads(norm: Norm, y: Attribute) {
    var v := Json(norm, SerializeOne(y));
    FillsTo(v, y.(value := v), NormalisedOne(norm, y))
  }

  lemma InnerLoadsExactly(norm: Norm, y: Attribute)
    requires IsSigned(y)
    ensures InnerLoads(norm, y) <==> RoundTrippableOne(y) && LoadableInner(y)
  {
    hide Fill, CanFill, FieldsJson, AttributesJson, Serialize, Signature, Normalised, CanRebuild, Rebuild;
    if y.typ == MAP {
      InnerMapLoads(norm, y);
      assert y.value.tree.attrs == map[] ==> RoundTrippable(y.value.tree);
    } else {
      hide SerializeOne, NormalisedOne, RoundTrippableOne;
      PlainLoads(norm, y, y.(value := Json(norm, SerializeOne(y))));
    }
  }

  lemma InnerMapLoads(norm: Norm, y: Attribute)
    requires y.typ == MAP && y.value.Tree?
    ensures InnerLoads(norm, y) <==> y.value.tree.attrs == map[]
  {
    hide Fill, CanFill, Normalised, Serialize, FieldsJson, CanRebuild;
    var t := y.value.tree;
    var g := FieldsJson(norm, Serialize(t));
    assert Json(norm, SerializeOne(y)) == Raw(g);
    assert InnerLoads(norm, y)
           <==> CanRebuild(g) && CanFill(g, Rebuild(g, g)) && Fill(g, Rebuild(g, g)) == Normalised(norm, t);
    if t.attrs == map[] {
      EmptyLoads(norm, t);
    } else {
      DeeperIsLost(norm, t);
    }
  }

  lemma EmptyLoads(norm: Norm, t: Attributes)
    requires t.attrs == map[]
    ensures var g := FieldsJson(norm, Serialize(t));
            CanRebuild(g) && CanFill(g, Rebuild(g, g)) && Fill(g, Rebuild(g, g)) == Normalised(norm, t)
  {
    var g := FieldsJson(norm, Serialize(t));
    assert t.attrs.Keys == {};
    assert g.data.Keys == {};
    assert Rebuild(g, g).attrs.Keys == {};
    assert Fill(g, Rebuild(g, g)).attrs == map[] == Normalised(norm, t).attrs;
  }

  /** Two levels down the rebuild step finds no signature: it panics or drops what was there. */
  lemma DeeperIsLost(norm: Norm, t: Attributes)
    requires t.attrs != map[]
    ensures var g := FieldsJson(norm, Serialize(t));
            !(CanRebuild(g) && CanFill(g, Rebuild(g, g)) && Fill(g, Rebuild(g, g)) == Normalised(norm, t))
  {
    hide Fill, CanFill, Rebuild, CanRebuild, Json, FieldsJson, Serialize, NormalisedOne, HasText;
    hide SerializeOne, FillOne, IsSerialized;
    var g := FieldsJson(norm, Serialize(t));
    var k :| k in t.attrs;
    StoredAt(norm, t, k);
    assert k in Normalised(norm, t).attrs && Normalised(norm, t).attrs[k] == NormalisedOne(norm, t.attrs[k]);
    if k in g.data {
      RebuiltAt(g, k);
      if g.data[k].Raw? && CanRebuild(g) {
        NameIsLost(norm, t.attrs[k], g.data[k].fields);
      }
    } else {
      NotRebuilt(g, k);
    }
  }

  lemma NotRebuilt(g: AttributeValue, k: string)
    requires k !in g.data
    ensures k !in Fill(g, Rebuild(g, g)).attrs
  {
  }

  lemma StoredAt(norm: Norm, t: Attributes, k: string)
    requires k in t.attrs
    ensures var g := FieldsJson(norm, Serialize(t));
            && (k in g.data <==> IsSerialized(t.attrs[k]))
            && (k in g.data ==> g.data[k] == Json(norm, SerializeOne(t.attrs[k])))
  {
    hide Json, SerializeOne;
  }

  /** A map rebuilt from itself keeps the keys of its generic maps, each rebuilt from itself too. */
  lemma RebuiltAt(g: AttributeValue, k: string)
    requires k in g.data
    ensures k in Fill(g, Rebuild(g, g)).attrs <==> g.data[k].Raw?
    ensures g.data[k].Raw? ==>
              var h := g.data[k].fields;
              && Fill(g, Rebuild(g, g)).attrs[k].value == Tree(Fill(h, Rebuild(h, h)))
              && (CanRebuild(g) ==> HasText(h, "name"))
  {
    hide TextField, CanFill;
  }

  /** A generic map with a name in it comes from an attribute set with an attribute of that key. */
  lemma NameIsLost(norm: Norm, z: Attribute, h: AttributeValue)
    requires IsSerialized(z) && Json(norm, SerializeOne(z)) == Raw(h) && HasText(h, "name")
    ensures NormalisedOne(norm, z).value != Tree(Fill(h, Rebuild(h, h)))
  {
    hide Fill, Rebuild, FillOne, CanFill;
    NoName(h);
    if z.typ == MAP {
      hide SerializeOne, Json;
      StoredMap(norm, z);
    }
  }

  lemma NoName(h: AttributeValue)
    requires HasText(h, "name")
    ensures "name" !in Fill(h, Rebuild(h, h)).attrs
  {
  }

  lemma StoredMap(norm: Norm, z: Attribute)
    requires z.typ == MAP && z.value.Tree?
    ensures var v := Json(norm, SerializeOne(z));
            v.Raw? && v.fields.data.Keys <= Normalised(norm, z.value.tree).attrs.Keys
  {
    var inner := FieldsJson(norm, Serialize(z.value.tree));
    assert Json(norm, SerializeOne(z)) == Raw(inner);
    forall k | k in inner.data ensures k in z.value.tree.attrs {
    }
  }

  /** The stored signature of an attribute that is no map holds no value, or a list for an array. */
  lemma PlainSignature(norm: Norm, x: Attribute)
    requires IsSigned(x) && x.typ != MAP
    ensures var sig := DecodeOne(AttributeJson(norm, SignatureOne(x)));
            sig.name == x.name && sig.typ == x.typ && (sig.value == Nil || (sig.value.List? && x.value.List?))
  {
    hide SignatureItems, TextField, HasText;
    AttributeJsonTexts(norm, SignatureOne(x));
  }

  /** Filling with a stored value gives the value back, unless it is or holds a map, or holds a nil. */
  lemma PlainLoads(norm: Norm, x: Attribute, sig: Attribute)
    requires IsSigned(x) && x.typ != MAP && sig.name == x.name && sig.typ == x.typ
    requires sig.value == Nil || (sig.value.List? && x.value.List?) || sig.value == Json(norm, SerializeOne(x))
    ensures FillsTo(Json(norm, SerializeOne(x)), sig, NormalisedOne(norm, x))
            <==> RoundTrippableOne(x) && PlainValue(x.value)
  {
    hide Fill, CanFill, FieldsJson, AttributesJson, Rebuild, CanRebuild, Serialize, Signature;
    if x.value.List? {
      hide SerializeItems, KeptItems;
      ListLoads(norm, x);
    } else {
      assert SerializeOne(x) == x.value;
    }
  }

  /** The elements that survive are those that were no maps and no sets, and a nil panics. */
  lemma ListLoads(norm: Norm, x: Attribute)
    requires IsSigned(x) && x.typ != MAP && x.value.List?
    ensures var d := Json(norm, SerializeOne(x));
            && d.List?
            && (KeptItems(d.items) == Json(norm, x.value).items && (forall i | 0 <= i < |d.items| :: !d.items[i].Nil?)
                <==> NoMaps(x.value.items) && PlainValue(x.value))
  {
    hide Serialize, FieldsJson, AttributesJson, KeptItems;
    var items, d := x.value.items, Json(norm, SerializeOne(x));
    forall i | 0 <= i < |items|
      ensures d.items[i] == Json(norm, if x.typ == ARRAY then SerializeItem(items[i]) else items[i])
    {
      if x.typ == ARRAY {
        assert SerializeItems(items)[i] == SerializeItem(items[i]);
      }
    }
    assert |d.items| == |items| == |Json(norm, x.value).items|;
    if NoMaps(items) && PlainValue(x.value) {
      assert d.items == Json(norm, x.value).items;
    }
    if KeptItems(d.items) == Json(norm, x.value).items {
      KeptAll(d.items);
      forall i | 0 <= i < |items| ensures !items[i].Data? && !items[i].Raw? && !items[i].Tree? {
        assert d.items[i] == Json(norm, if x.typ == ARRAY then SerializeItem(items[i]) else items[i]);
      }
    }
  }
}
