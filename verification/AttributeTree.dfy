/** Typed attribute trees: what Serialize, Deserialize, Signature and Copy compute, on values.
    A Go map is a Dafny map, so nothing here depends on the order in which keys are visited. */
module AttributeTree {

  datatype Kind = String | Bool | Time | Float | Int

  /** The dynamic values an attribute or a data entry can hold. */
  datatype Value =
    | Nil
    | Atom(kind: Kind, text: string)
    | Strings(strs: seq<string>)          // []string
    | List(items: seq<Value>)             // []interface{}
    | Tree(tree: Attributes)              // Attributes
    | Data(fields: AttributeValue)        // AttributeValue
    | Raw(fields: AttributeValue)         // map[string]interface{}

  datatype Attribute = Attribute(name: string, typ: string, value: Value)

  datatype Attributes = Attributes(attrs: map<string, Attribute>)

  datatype AttributeValue = AttributeValue(data: map<string, Value>)

  const ARRAY := "array"
  const MAP := "map"

  predicate IsScalarType(typ: string) {
    typ in ["string", "int", "time", "bool", "float", "image", "icon", "point", "encrypted"]
  }

  /** Data that replaces a value whole and is compared with it. */
  predicate IsScalarDatum(d: Value) {
    d.Atom? || d.Strings? || d.Tree?
  }

  // ---------- Serialize ----------

  function Serialize(a: Attributes): AttributeValue
    decreases a
  {
    AttributeValue(map k | k in a.attrs && IsSerialized(a.attrs[k]) :: SerializeOne(a.attrs[k]))
  }

  /** Other attributes are skipped: unknown types, and map types that hold no attribute set. */
  predicate IsSerialized(x: Attribute) {
    IsScalarType(x.typ) || x.typ == ARRAY || (x.typ == MAP && x.value.Tree?)
  }

  function SerializeOne(x: Attribute): Value
    decreases x
  {
    if x.typ == ARRAY then List(if x.value.List? then SerializeItems(x.value.items) else [])
    else if x.typ == MAP && x.value.Tree? then Data(Serialize(x.value.tree))
    else x.value
  }

  function SerializeItems(items: seq<Value>): (r: seq<Value>)
    ensures |r| == |items|
    decreases items
  {
    seq(|items|, i requires 0 <= i < |items| => SerializeItem(items[i]))
  }

  function SerializeItem(item: Value): Value
    decreases item
  {
    if item.Tree? then Data(Serialize(item.tree)) else item
  }

  /** Serialize does not panic: it asks a nil list element for its type name. */
  predicate CanSerialize(a: Attributes)
    decreases a
  {
    forall k | k in a.attrs :: CanSerializeOne(a.attrs[k])
  }

  predicate CanSerializeOne(x: Attribute)
    decreases x
  {
    if x.typ == ARRAY && x.value.List? then
      forall i | 0 <= i < |x.value.items| ::
        !x.value.items[i].Nil? && (x.value.items[i].Tree? ==> CanSerialize(x.value.items[i].tree))
    else x.typ == MAP && x.value.Tree? ==> CanSerialize(x.value.tree)
  }

  // ---------- Signature ----------

  function Signature(a: Attributes): Attributes
    decreases a
  {
    Attributes(map k | k in a.attrs && IsSigned(a.attrs[k]) :: SignatureOne(a.attrs[k]))
  }

  predicate IsSigned(x: Attribute) {
    || IsScalarType(x.typ)
    || (x.typ == ARRAY && x.value.List?)
    || (x.typ == MAP && x.value.Tree?)
  }

  function SignatureOne(x: Attribute): Attribute
    decreases x
  {
    if x.typ == ARRAY && x.value.List? then x.(value := List(SignatureItems(x.value.items)))
    else if x.typ == MAP && x.value.Tree? then x.(value := Tree(Signature(x.value.tree)))
    else x.(value := Nil)
  }

  /** Only attribute sets survive inside an array. */
  function SignatureItems(items: seq<Value>): seq<Value>
    decreases items
  {
    if items == [] then []
    else
      var last := items[|items| - 1];
      SignatureItems(items[..|items| - 1]) + SignatureItem(last)
  }

  function SignatureItem(item: Value): seq<Value>
    decreases item
  {
    if item.Tree? then [Tree(Signature(item.tree))] else []
  }

  // ---------- Deserialize ----------

  /** The tree that Deserialize leaves in its receiver `to`. */
  function Fill(from: AttributeValue, to: Attributes): Attributes
    decreases from
  {
    Attributes(map k | k in to.attrs ::
                 if k in from.data then FillOne(from.data[k], to.attrs[k]) else to.attrs[k])
  }

  function FillOne(d: Value, x: Attribute): Attribute
    decreases d
  {
    match d
    case Nil => x
    case Raw(f) =>
      if x.value.Raw? then x.(value := Tree(Fill(f, Rebuild(x.value.fields, f))))
      else if x.value.Tree? then x.(value := Tree(Fill(f, x.value.tree)))
      else x
    case Data(f) => if x.value.Tree? then x.(value := Tree(Fill(f, x.value.tree))) else x
    case List(items) => x.(value := List(KeptItems(items)))
    case _ => x.(value := d)
  }

  /** Elements that are maps are dropped: no target is a []Attributes. */
  function KeptItems(items: seq<Value>): (kept: seq<Value>)
    ensures forall i | 0 <= i < |kept| :: !kept[i].Data? && !kept[i].Raw?
    ensures (forall i | 0 <= i < |items| :: !items[i].Data? && !items[i].Raw?) <==> kept == items
    ensures |kept| <= |items|
  {
    if items == [] then []
    else
      var kept := KeptItems(items[..|items| - 1]);
      var last := items[|items| - 1];
      assert items == items[..|items| - 1] + [last];
      if last.Data? || last.Raw? then kept else kept + [last]
  }

  /** A nested signature read back as generic maps becomes an attribute set again, one level deep. */
  function Rebuild(sig: AttributeValue, from: AttributeValue): Attributes {
    Attributes(map k | k in sig.data && sig.data[k].Raw? ::
                 Attribute(TextField(sig.data[k].fields, "name"), TextField(sig.data[k].fields, "type"),
                           if k in from.data then from.data[k] else Nil))
  }

  predicate HasText(f: AttributeValue, key: string) {
    key in f.data && f.data[key].Atom? && f.data[key].kind == String
  }

  function TextField(f: AttributeValue, key: string): string {
    if HasText(f, key) then f.data[key].text else ""
  }

  predicate CanRebuild(sig: AttributeValue) {
    forall k | k in sig.data && sig.data[k].Raw? ::
      HasText(sig.data[k].fields, "name") && HasText(sig.data[k].fields, "type")
  }

  /** Deserialize does not panic. A list for an unknown key, a list with a nil element, a generic
      map aimed at a nil value and a generic signature without name or type all panic. */
  predicate CanFill(from: AttributeValue, to: Attributes)
    decreases from
  {
    forall k | k in from.data ::
      if k in to.attrs then CanFillOne(from.data[k], to.attrs[k]) else !from.data[k].List?
  }

  predicate CanFillOne(d: Value, x: Attribute)
    decreases d
  {
    match d
    case Raw(f) =>
      if x.value.Raw? then CanRebuild(x.value.fields) && CanFill(f, Rebuild(x.value.fields, f))
      else if x.value.Tree? then CanFill(f, x.value.tree)
      else !x.value.Nil?
    case Data(f) => x.value.Tree? ==> CanFill(f, x.value.tree)
    case List(items) => forall i | 0 <= i < |items| :: !items[i].Nil?
    case _ => true
  }

  /** The flag Deserialize returns, for any printing of values with %v. */
  predicate Changed(show: Value -> string, from: AttributeValue, to: Attributes)
    decreases from
  {
    exists k | k in from.data && k in to.attrs :: ChangedOne(show, from.data[k], to.attrs[k])
  }

  predicate ChangedOne(show: Value -> string, d: Value, x: Attribute)
    decreases d
  {
    match d
    case Nil => false
    case Raw(f) =>
      if x.value.Raw? then Changed(show, f, Rebuild(x.value.fields, f))
      else x.value.Tree? && Changed(show, f, x.value.tree)
    case Data(f) => x.value.Tree? && Changed(show, f, x.value.tree)
    case List(_) => false
    case _ => show(d) != show(x.value)
  }
}
