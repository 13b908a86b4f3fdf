/** What Serialize, Signature and Deserialize do at every place of a tree, and where they panic. */
module AttributePaths {
  import opened AttributeTree
  import opened Common

  // ---------- places ----------

  /** One step down: into the set of a map attribute, or into the set at a position of an array. */
  datatype Hop = Into(key: string) | Item(key: string, index: nat)

  function SetBelow(a: Attributes, hop: Hop): Option<Attributes> {
    if hop.key !in a.attrs then None
    else
      var x := a.attrs[hop.key];
      match hop
      case Into(_) => if x.typ == MAP && x.value.Tree? then Some(x.value.tree) else None
      case Item(_, i) =>
        if x.typ == ARRAY && x.value.List? && i < |x.value.items| && x.value.items[i].Tree?
        then Some(x.value.items[i].tree) else None
  }

  function SetAt(a: Attributes, hops: seq<Hop>): Option<Attributes> {
    if hops == [] then Some(a)
    else if SetBelow(a, hops[0]) == None then None
    else SetAt(SetBelow(a, hops[0]).value, hops[1..])
  }

  function MapBelow(d: AttributeValue, hop: Hop): Option<AttributeValue> {
    if hop.key !in d.data then None
    else
      var v := d.data[hop.key];
      match hop
      case Into(_) => if v.Data? then Some(v.fields) else None
      case Item(_, i) =>
        if v.List? && i < |v.items| && v.items[i].Data? then Some(v.items[i].fields) else None
  }

  function MapAt(d: AttributeValue, hops: seq<Hop>): Option<AttributeValue> {
    if hops == [] then Some(d)
    else if MapBelow(d, hops[0]) == None then None
    else MapAt(MapBelow(d, hops[0]).value, hops[1..])
  }

  const SCALARS := {"string", "int", "time", "bool", "float", "image", "icon", "point", "encrypted"}

  // ---------- Serialize ----------

  /** d holds the value of a scalar, the elements of an array, or a map for an attribute set. */
  predicate Stores(x: Attribute, d: Value) {
    if x.typ == "array" then
      && d.List? && |d.items| == (if x.value.List? then |x.value.items| else 0)
      && forall i | 0 <= i < |d.items| ::
           if x.value.items[i].Tree? then d.items[i].Data? else d.items[i] == x.value.items[i]
    else if x.typ == "map" then d.Data?
    else d == x.value
  }

  /** m has the data of exactly those attributes of s whose type is known, sets for map types. */
  predicate StoresSet(s: Attributes, m: AttributeValue) {
    && m.data.Keys == (set k | k in s.attrs &&
                         (s.attrs[k].typ in SCALARS + {"array"}
                          || (s.attrs[k].typ == "map" && s.attrs[k].value.Tree?)))
    && forall k | k in m.data :: Stores(s.attrs[k], m.data[k])
  }

  /** At every attribute set, through maps and arrays to any depth, Serialize has a map at the same
      place with exactly the data of that set. */
  lemma {:induction false} SerializedAt(a: Attributes, hops: seq<Hop>)
    requires SetAt(a, hops).Some?
    ensures MapAt(Serialize(a), hops).Some? && StoresSet(SetAt(a, hops).value, MapAt(Serialize(a), hops).value)
    decreases |hops|
  {
    if hops == [] {
      SerializedHere(a);
    } else {
      SerializedBelow(a, hops[0]);
      SerializedAt(SetBelow(a, hops[0]).value, hops[1..]);
    }
  }

  lemma SerializedHere(a: Attributes)
    ensures StoresSet(a, Serialize(a))
  {
    hide SerializeItems, CanSerialize;
    forall k | k in Serialize(a).data ensures Stores(a.attrs[k], Serialize(a).data[k]) {
      StoredOne(a.attrs[k]);
    }
  }

  lemma StoredOne(x: Attribute)
    requires IsSerialized(x)
    ensures Stores(x, SerializeOne(x))
  {
    if x.typ == ARRAY && x.value.List? {
      forall i | 0 <= i < |x.value.items|
        ensures SerializeItems(x.value.items)[i] == SerializeItem(x.value.items[i])
      {
      }
    }
  }

  lemma SerializedBelow(a: Attributes, hop: Hop)
    requires SetBelow(a, hop).Some?
    ensures MapBelow(Serialize(a), hop) == Some(Serialize(SetBelow(a, hop).value))
  {
    var x := a.attrs[hop.key];
    if hop.Item? {
      assert SerializeItems(x.value.items)[hop.index] == SerializeItem(x.value.items[hop.index]);
    }
  }

  /** A nil element of an array somewhere in the tree is the only thing Serialize panics on. */
  predicate HasNil(s: Attributes) {
    exists k | k in s.attrs :: NilInside(s.attrs[k])
  }

  predicate NilInside(x: Attribute) {
    x.typ == "array" && x.value.List? && Nil in x.value.items
  }

  ghost predicate NilAt(a: Attributes, hops: seq<Hop>) {
    SetAt(a, hops).Some? && HasNil(SetAt(a, hops).value)
  }

  lemma {:induction false} SerializePanicsExactly(a: Attributes)
    ensures !CanSerialize(a) <==> exists hops :: NilAt(a, hops)
    decreases a
  {
    if !CanSerialize(a) {
      var hops := NilPlace(a);
    }
    if hops :| NilAt(a, hops) {
      NilPanics(a, hops);
    }
  }

  lemma {:induction false} NilPlace(a: Attributes) returns (hops: seq<Hop>)
    requires !CanSerialize(a)
    ensures NilAt(a, hops)
    decreases a
  {
    var k :| k in a.attrs && !CanSerializeOne(a.attrs[k]);
    hops := NilPlaceIn(a, k, a.attrs[k]);
  }

  lemma {:induction false} NilPlaceIn(a: Attributes, k: string, x: Attribute) returns (hops: seq<Hop>)
    requires k in a.attrs && a.attrs[k] == x && !CanSerializeOne(x)
    ensures NilAt(a, hops)
    decreases x
  {
    if NilInside(x) {
      hops := [];
    } else if x.typ == ARRAY {
      var i :| 0 <= i < |x.value.items| && x.value.items[i].Tree? && !CanSerialize(x.value.items[i].tree);
      var rest := NilPlaceItem(x.value.items[i]);
      hops := [Item(k, i)] + rest;
      assert hops[1..] == rest;
    } else {
      var rest := NilPlace(x.value.tree);
      hops := [Into(k)] + rest;
      assert hops[1..] == rest;
    }
  }

  lemma {:induction false} NilPlaceItem(item: Value) returns (hops: seq<Hop>)
    requires item.Tree? && !CanSerialize(item.tree)
    ensures NilAt(item.tree, hops)
    decreases item
  {
    hops := NilPlace(item.tree);
  }

  lemma {:induction false} NilPanics(a: Attributes, hops: seq<Hop>)
    requires NilAt(a, hops)
    ensures !CanSerialize(a)
    decreases |hops|
  {
    if hops == [] {
      var k :| k in a.attrs && NilInside(a.attrs[k]);
      assert !CanSerializeOne(a.attrs[k]);
    } else {
      NilPanics(SetBelow(a, hops[0]).value, hops[1..]);
      assert !CanSerializeOne(a.attrs[hops[0].key]);
    }
  }

  // ---------- Signature ----------

  function SetsBefore(items: seq<Value>, i: nat): nat
    requires i <= |items|
  {
    if i == 0 then 0 else SetsBefore(items, i - 1) + if items[i - 1].Tree? then 1 else 0
  }

  /** The same place once all array elements that are no sets are gone. */
  function MovedHop(a: Attributes, hop: Hop): Hop
    requires SetBelow(a, hop).Some?
  {
    match hop
    case Into(_) => hop
    case Item(k, i) => Item(k, SetsBefore(a.attrs[k].value.items, i))
  }

  function Moved(a: Attributes, hops: seq<Hop>): seq<Hop>
    requires SetAt(a, hops).Some?
    decreases |hops|
  {
    if hops == [] then []
    else [MovedHop(a, hops[0])] + Moved(SetBelow(a, hops[0]).value, hops[1..])
  }

  /** g has the names and types of exactly those attributes of s whose type is known and whose value
      fits it, an empty value for scalars, and as many sets in an array as s has. */
  predicate Strips(s: Attributes, g: Attributes) {
    && g.attrs.Keys == (set k | k in s.attrs &&
                          (s.attrs[k].typ in SCALARS || (s.attrs[k].typ == "array" && s.attrs[k].value.List?)
                           || (s.attrs[k].typ == "map" && s.attrs[k].value.Tree?)))
    && forall k | k in g.attrs :: StripsOne(s.attrs[k], g.attrs[k])
  }

  predicate StripsOne(x: Attribute, y: Attribute) {
    && y.name == x.name && y.typ == x.typ
    && if x.typ == "array" then
         && y.value.List?
         && |y.value.items| == (if x.value.List? then SetsBefore(x.value.items, |x.value.items|) else 0)
         && forall i | 0 <= i < |y.value.items| :: y.value.items[i].Tree?
       else if x.typ == "map" then y.value.Tree?
       else y.value == Nil
  }

  /** At every attribute set the signature has the stripped set, in the same order within arrays. */
  lemma {:induction false} SignedAt(a: Attributes, hops: seq<Hop>)
    requires SetAt(a, hops).Some?
    ensures var g := SetAt(Signature(a), Moved(a, hops)); g.Some? && Strips(SetAt(a, hops).value, g.value)
    decreases |hops|
  {
    if hops == [] {
      SignedHere(a);
    } else {
      SignedBelow(a, hops[0]);
      SignedAt(SetBelow(a, hops[0]).value, hops[1..]);
      assert Moved(a, hops)[1..] == Moved(SetBelow(a, hops[0]).value, hops[1..]);
    }
  }

  lemma SignedHere(a: Attributes)
    ensures Strips(a, Signature(a))
  {
    hide SignatureOne, StripsOne;
    forall k | k in Signature(a).attrs ensures StripsOne(a.attrs[k], Signature(a).attrs[k]) {
      SignedOne(a.attrs[k]);
    }
  }

  lemma SignedOne(x: Attribute)
    requires IsSigned(x)
    ensures StripsOne(x, SignatureOne(x))
  {
    hide SignatureItems, Signature;
    if x.value.List? {
      ItemsSigned(x.value.items);
    }
  }

  predicate SignsItems(items: seq<Value>) {
    && |SignatureItems(items)| == SetsBefore(items, |items|)
    && (forall i | 0 <= i < |SignatureItems(items)| :: SignatureItems(items)[i].Tree?)
    && forall i | 0 <= i < |items| && items[i].Tree? ::
         SetsBefore(items, i) < |SignatureItems(items)|
         && SignatureItems(items)[SetsBefore(items, i)] == Tree(Signature(items[i].tree))
  }

  lemma {:induction false} ItemsSigned(items: seq<Value>)
    ensures SignsItems(items)
  {
    hide SignsItems, SetsBefore, Signature;
    if items == [] {
      NothingSigned();
    } else {
      ItemsSigned(items[..|items| - 1]);
      OneMoreSigned(items);
    }
  }

  lemma NothingSigned()
    ensures SignsItems([])
  {
  }

  lemma OneMoreSigned(items: seq<Value>)
    requires items != [] && SignsItems(items[..|items| - 1])
    ensures SignsItems(items)
  {
    var n := |items| - 1;
    var init := items[..n];
    var before, after := SignatureItems(init), SignatureItems(items);
    assert after == before + SignatureItem(items[n]);
    assert SetsBefore(items, n + 1) == SetsBefore(items, n) + if items[n].Tree? then 1 else 0;
    hide SignatureItems, SetsBefore, Signature;
    forall i | 0 <= i <= n ensures SetsBefore(items, i) == SetsBefore(init, i) {
      SetsBeforePrefix(items, n, i);
    }
    forall i | 0 <= i < n && items[i].Tree?
      ensures SetsBefore(items, i) < |before| && before[SetsBefore(items, i)] == Tree(Signature(items[i].tree))
    {
      assert init[i] == items[i];
    }
  }

  lemma {:induction false} SetsBeforePrefix(items: seq<Value>, n: nat, i: nat)
    requires i <= n <= |items|
    ensures SetsBefore(items[..n], i) == SetsBefore(items, i)
  {
    if i > 0 { SetsBeforePrefix(items, n, i - 1); }
  }

  lemma SignedBelow(a: Attributes, hop: Hop)
    requires SetBelow(a, hop).Some?
    ensures SetBelow(Signature(a), MovedHop(a, hop)) == Some(Signature(SetBelow(a, hop).value))
  {
    hide SignatureItems, SetsBefore;
    if hop.Item? {
      ItemsSigned(a.attrs[hop.key].value.items);
    }
  }

  // ---------- Deserialize ----------

  /** KeptItems drops the maps and keeps everything else in order. */
  lemma {:induction false} KeptInOrder(items: seq<Value>, more: seq<Value>)
    ensures KeptItems(items + more) == KeptItems(items) + KeptItems(more)
    ensures |more| == 1 ==> KeptItems(more) == if more[0].Data? || more[0].Raw? then [] else more
  {
    if more == [] {
      assert items + more == items;
    } else {
      var n := |more| - 1;
      assert (items + more)[..|items + more| - 1] == items + more[..n];
      KeptInOrder(items, more[..n]);
      if n == 0 {
        assert more == [more[0]] && more[..0] == [];
      }
    }
  }

  /** The pair of data and target met under a key; a generic signature is rebuilt first. */
  function MeetBelow(d: AttributeValue, a: Attributes, k: string): Option<(AttributeValue, Attributes)> {
    if k !in d.data || k !in a.attrs then None
    else
      var v, x := d.data[k], a.attrs[k].value;
      if (v.Raw? || v.Data?) && x.Tree? then Some((v.fields, x.tree))
      else if v.Raw? && x.Raw? then Some((v.fields, Rebuild(x.fields, v.fields)))
      else None
  }

  function MeetAt(d: AttributeValue, a: Attributes, path: seq<string>): Option<(AttributeValue, Attributes)> {
    if path == [] then Some((d, a))
    else
      match MeetBelow(d, a, path[0])
      case None => None
      case Some((m, s)) => MeetAt(m, s, path[1..])
  }

  function TreeAt(a: Attributes, path: seq<string>): Option<Attributes> {
    if path == [] then Some(a)
    else if path[0] in a.attrs && a.attrs[path[0]].value.Tree? then TreeAt(a.attrs[path[0]].value.tree, path[1..])
    else None
  }

  /** What becomes of a value under a datum: scalars and lists replace it, maps make a set of a set or
      of a generic map, and nothing else changes. */
  predicate Replaces(d: Value, v: Value, w: Value) {
    match d
    case Nil => w == v
    case Atom(_, _) => w == d
    case Strings(_) => w == d
    case Tree(_) => w == d
    case List(items) => w == List(KeptItems(items))
    case Raw(_) => if v.Tree? || v.Raw? then w.Tree? else w == v
    case Data(_) => if v.Tree? then w.Tree? else w == v
  }

  predicate FillsSet(m: AttributeValue, s: Attributes, t: Attributes) {
    && t.attrs.Keys == s.attrs.Keys
    && forall k | k in s.attrs ::
         && t.attrs[k].name == s.attrs[k].name && t.attrs[k].typ == s.attrs[k].typ
         && if k in m.data then Replaces(m.data[k], s.attrs[k].value, t.attrs[k].value)
            else t.attrs[k].value == s.attrs[k].value
  }

  /** Wherever data meets a set, at any depth, the result has that set with each value replaced or not. */
  lemma {:induction false} FilledAt(d: AttributeValue, a: Attributes, path: seq<string>)
    requires MeetAt(d, a, path).Some?
    ensures var (m, s) := MeetAt(d, a, path).value;
            TreeAt(Fill(d, a), path).Some? && FillsSet(m, s, TreeAt(Fill(d, a), path).value)
    decreases |path|
  {
    hide KeptItems, Rebuild;
    if path != [] {
      var (m, s) := MeetBelow(d, a, path[0]).value;
      FilledAt(m, s, path[1..]);
    }
  }

  /** A list for an unknown key or with a nil in it, a generic map against a nil value, and a generic
      map against a signature without names and types. */
  predicate PanicsOn(m: AttributeValue, s: Attributes, k: string) {
    && k in m.data
    && match m.data[k]
       case List(items) => k !in s.attrs || Nil in items
       case Raw(_) =>
         && k in s.attrs
         && (s.attrs[k].value == Nil || (s.attrs[k].value.Raw? && !HasTexts(s.attrs[k].value.fields)))
       case _ => false
  }

  predicate HasTexts(sig: AttributeValue) {
    forall k | k in sig.data && sig.data[k].Raw? ::
      forall key | key in {"name", "type"} ::
        && key in sig.data[k].fields.data && sig.data[k].fields.data[key].Atom?
        && sig.data[k].fields.data[key].kind == String
  }

  ghost predicate PanicsAt(d: AttributeValue, a: Attributes, path: seq<string>) {
    && path != []
    && MeetAt(d, a, path[..|path| - 1]).Some?
    && var (m, s) := MeetAt(d, a, path[..|path| - 1]).value; PanicsOn(m, s, path[|path| - 1])
  }

  /** Deserialize panics exactly when some datum it comes to is one of these. */
  lemma {:induction false} FillPanicsExactly(d: AttributeValue, a: Attributes)
    ensures !CanFill(d, a) <==> exists path :: PanicsAt(d, a, path)
    decreases d
  {
    if !CanFill(d, a) {
      var path := PanicPlace(d, a);
    }
    if path :| PanicsAt(d, a, path) {
      PlacePanics(d, a, path);
    }
  }

  lemma RebuildNeedsTexts(sig: AttributeValue)
    ensures CanRebuild(sig) <==> HasTexts(sig)
  {
    forall k | k in sig.data && sig.data[k].Raw?
      ensures HasText(sig.data[k].fields, "name") && HasText(sig.data[k].fields, "type") <==>
              forall key | key in {"name", "type"} ::
                key in sig.data[k].fields.data && sig.data[k].fields.data[key].Atom?
                && sig.data[k].fields.data[key].kind == String
    {
      assert "name" in {"name", "type"} && "type" in {"name", "type"};
    }
  }

  lemma {:induction false} PanicPlace(d: AttributeValue, a: Attributes) returns (path: seq<string>)
    requires !CanFill(d, a)
    ensures PanicsAt(d, a, path)
    decreases d
  {
    var k :| k in d.data && !(if k in a.attrs then CanFillOne(d.data[k], a.attrs[k]) else !d.data[k].List?);
    if d.data[k].Raw? && a.attrs[k].value.Raw? {
      RebuildNeedsTexts(a.attrs[k].value.fields);
    }
    if PanicsOn(d, a, k) {
      path := [k];
      assert path[..0] == [];
    } else {
      var (m, s) := MeetBelow(d, a, k).value;
      var rest := PanicPlaceIn(d.data[k], s);
      path := [k] + rest;
      PanicsBelow(d, a, k, m, s, rest);
    }
  }

  lemma PanicsBelow(d: AttributeValue, a: Attributes, k: string, m: AttributeValue, s: Attributes, rest: seq<string>)
    requires MeetBelow(d, a, k) == Some((m, s)) && PanicsAt(m, s, rest)
    ensures PanicsAt(d, a, [k] + rest)
  {
    hide MeetBelow, PanicsOn;
    var path := [k] + rest;
    var init := path[..|path| - 1];
    assert init == [k] + rest[..|rest| - 1];
    assert init[0] == k && init[1..] == rest[..|rest| - 1];
    assert MeetAt(d, a, init) == MeetAt(m, s, rest[..|rest| - 1]);
    assert path[|path| - 1] == rest[|rest| - 1];
  }

  lemma {:induction false} PanicPlaceIn(v: Value, s: Attributes) returns (path: seq<string>)
    requires (v.Raw? || v.Data?) && !CanFill(v.fields, s)
    ensures PanicsAt(v.fields, s, path)
    decreases v
  {
    path := PanicPlace(v.fields, s);
  }

  lemma {:induction false} PlacePanics(d: AttributeValue, a: Attributes, path: seq<string>)
    requires PanicsAt(d, a, path)
    ensures !CanFill(d, a)
    decreases |path|
  {
    var k := path[0];
    if |path| == 1 {
      if k in a.attrs && a.attrs[k].value.Raw? {
        RebuildNeedsTexts(a.attrs[k].value.fields);
      }
      assert !(if k in a.attrs then CanFillOne(d.data[k], a.attrs[k]) else !d.data[k].List?);
    } else {
      assert path[..|path| - 1][1..] == path[1..][..|path| - 2];
      var (m, s) := MeetBelow(d, a, k).value;
      PlacePanics(m, s, path[1..]);
      assert !CanFillOne(d.data[k], a.attrs[k]);
    }
  }
}
