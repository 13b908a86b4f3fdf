/** util.inspect over a finite object graph that may be cyclic. */
module Inspector {
  import opened Common
  import opened Decimal
  import opened InspectorLayout

  type Id = nat

  datatype Value = Primitive(text: string) | Ref(id: Id)

  /** What a property descriptor holds. */
  datatype Content = Getter | Setter | GetterSetter | Data(value: Value)

  /** `shown` is the key as it is printed, bare or quoted. */
  datatype Prop = Prop(key: string, shown: string, enumerable: bool, content: Content)

  /** `leaf` is the text of an object that is printed whole when it has no keys (a function, a regular
      expression, a date, an error or a boxed primitive); `cut` is its text beyond the depth limit. */
  datatype Obj = Obj(isArray: bool, length: nat, props: seq<Prop>, base: string, leaf: Option<string>, cut: string)

  type Graph = map<Id, Obj>

  predicate Closed(g: Graph) {
    forall id | id in g :: forall p | p in g[id].props && p.content.Data? :: InGraph(g, p.content.value)
  }

  predicate InGraph(g: Graph, v: Value) {
    v.Ref? ==> v.id in g
  }

  // ---------- which properties are visited ----------

  function Keys(props: seq<Prop>, showHidden: bool): seq<Prop> {
    if props == [] then []
    else
      var last := props[|props| - 1];
      Keys(props[..|props| - 1], showHidden) + if showHidden || last.enumerable then [last] else []
  }

  function Named(props: seq<Prop>): seq<Option<Prop>> {
    if props == [] then []
    else
      var last := props[|props| - 1];
      Named(props[..|props| - 1]) + if last.key != "" && AllDigits(last.key) then [] else [Some(last)]
  }

  function Find(props: seq<Prop>, key: string): (r: Option<Prop>)
    ensures r.Some? ==> r.value in props && r.value.key == key
    ensures r == None ==> forall p | p in props :: p.key != key
  {
    if props == [] then None
    else if props[0].key == key then Some(props[0])
    else Find(props[1..], key)
  }

  /** Array elements by index, holes included, then the keys that are not numbers. */
  function Slots(o: Obj, showHidden: bool): seq<Option<Prop>> {
    if o.isArray then
      seq(o.length, i requires 0 <= i < o.length => Find(o.props, Dec(i))) + Named(Keys(o.props, showHidden))
    else
      var keys := Keys(o.props, showHidden);
      seq(|keys|, i requires 0 <= i < |keys| => Some(keys[i]))
  }

  /** The visible keys, all of them with showHidden, in their own order. */
  lemma {:induction false} KeysInOrder(props: seq<Prop>, more: seq<Prop>, showHidden: bool)
    ensures Keys(props + more, showHidden) == Keys(props, showHidden) + Keys(more, showHidden)
    ensures |more| == 1 ==> Keys(more, showHidden) == if showHidden || more[0].enumerable then more else []
  {
    if more == [] {
      assert props + more == props;
    } else {
      assert (props + more)[..|props + more| - 1] == props + more[..|more| - 1];
      KeysInOrder(props, more[..|more| - 1], showHidden);
      if |more| == 1 {
        assert more == [more[0]] && more[..0] == [];
      }
    }
  }

  /** One decimal digit or more. */
  predicate IsIndex(key: string) {
    |key| > 0 && forall i | 0 <= i < |key| :: '0' <= key[i] <= '9'
  }

  /** The keys that are no numbers, in their own order. */
  lemma {:induction false} NamedInOrder(props: seq<Prop>, more: seq<Prop>)
    ensures Named(props + more) == Named(props) + Named(more)
    ensures |more| == 1 ==>
              Named(more) == if IsIndex(more[0].key) then [] else [Some(more[0])]
  {
    if more == [] {
      assert props + more == props;
    } else {
      assert (props + more)[..|props + more| - 1] == props + more[..|more| - 1];
      NamedInOrder(props, more[..|more| - 1]);
      if |more| == 1 {
        assert more == [more[0]] && more[..0] == [];
      }
    }
  }

  /** An array shows a slot for every index, a hole where it has no element, and then its named keys;
      any other object shows its visible keys. */
  lemma SlotsAre(o: Obj, showHidden: bool)
    ensures var keys := Keys(o.props, showHidden);
            var slots := Slots(o, showHidden);
            if o.isArray then
              && |slots| == o.length + |Named(keys)| && slots[o.length..] == Named(keys)
              && forall i | 0 <= i < o.length ::
                   if slots[i] == None then forall p | p in o.props :: p.key != Dec(i)
                   else slots[i].value in o.props && slots[i].value.key == Dec(i)
            else |slots| == |keys| && forall i | 0 <= i < |keys| :: slots[i] == Some(keys[i])
  {
  }

  lemma {:induction false} KeysSubset(props: seq<Prop>, showHidden: bool)
    ensures forall p | p in Keys(props, showHidden) :: p in props
  {
    if props != [] { KeysSubset(props[..|props| - 1], showHidden); }
  }

  lemma {:induction false} NamedSubset(props: seq<Prop>)
    ensures forall p | p in Named(props) :: p.Some? && p.value in props
  {
    if props != [] { NamedSubset(props[..|props| - 1]); }
  }

  predicate SlotsInGraph(g: Graph, o: Obj, showHidden: bool) {
    forall i | 0 <= i < |Slots(o, showHidden)| ::
      var slot := Slots(o, showHidden)[i];
      slot.Some? && slot.value.content.Data? ==> InGraph(g, slot.value.content.value)
  }

  lemma SlotsSubset(o: Obj, showHidden: bool)
    ensures forall i | 0 <= i < |Slots(o, showHidden)| && Slots(o, showHidden)[i].Some? ::
              Slots(o, showHidden)[i].value in o.props
  {
    KeysSubset(o.props, showHidden);
    NamedSubset(Keys(o.props, showHidden));
    var named := Named(Keys(o.props, showHidden));
    forall i | 0 <= i < |Slots(o, showHidden)| && Slots(o, showHidden)[i].Some?
      ensures Slots(o, showHidden)[i].value in o.props
    {
      if o.isArray && i >= o.length {
        assert Slots(o, showHidden)[i] == named[i - o.length];
        assert named[i - o.length] in named;
      } else if !o.isArray {
        var keys := Keys(o.props, showHidden);
        assert keys[i] in keys;
      }
    }
  }

  // ---------- the document that is printed ----------

  /** `name: `, unless the property is a visible element of an array. */
  function Prefix(p: Prop, isArray: bool): string {
    if !p.enumerable then "[" + p.key + "]: "
    else if isArray && p.key != "" && AllDigits(p.key) then ""
    else p.shown + ": "
  }

  function Free(g: Graph, path: seq<Id>): set<Id> {
    g.Keys - set id | id in path
  }

  predicate IsEmpty(o: Obj, showHidden: bool) {
    Keys(o.props, showHidden) == [] && (o.leaf.Some? || !o.isArray || o.length == 0)
  }

  /** The object is printed property by property. */
  predicate Expands(o: Obj, showHidden: bool, depth: Option<int>) {
    !IsEmpty(o, showHidden) && (depth.Some? ==> depth.value >= 0)
  }

  function WholeText(o: Obj, showHidden: bool): string {
    if !IsEmpty(o, showHidden) then o.cut
    else if o.leaf.Some? then o.leaf.value
    else Braces(o.isArray).0 + o.base + Braces(o.isArray).1
  }

  /** What formatValue prints for v below the objects on `path`, without any mutable state. */
  function Show(g: Graph, showHidden: bool, v: Value, depth: Option<int>, path: seq<Id>): Doc
    requires Closed(g) && InGraph(g, v) && (v.Ref? ==> v.id !in path)
    decreases |Free(g, path)|, 1
  {
    if v.Primitive? then Text(v.text)
    else
      var o := g[v.id];
      if !Expands(o, showHidden, depth) then Text(WholeText(o, showHidden))
      else
        FreeShrinks(g, path, v.id);
        SlotsSubset(o, showHidden);
        var slots := Slots(o, showHidden);
        Branch(o.isArray, o.base,
               seq(|slots|, i requires 0 <= i < |slots| => ShowSlot(g, showHidden, slots[i], o, depth, path + [v.id])))
  }

  function ShowSlot(g: Graph, showHidden: bool, slot: Option<Prop>, o: Obj, depth: Option<int>, path: seq<Id>): Entry
    requires Closed(g) && (slot.Some? && slot.value.content.Data? ==> InGraph(g, slot.value.content.value))
    decreases |Free(g, path)|, 3
  {
    if slot == None then Hole
    else Entry(Prefix(slot.value, o.isArray), ShowContent(g, showHidden, slot.value.content, depth, path))
  }

  function ShowContent(g: Graph, showHidden: bool, content: Content, depth: Option<int>, path: seq<Id>): Doc
    requires Closed(g) && (content.Data? ==> InGraph(g, content.value))
    decreases |Free(g, path)|, 2
  {
    match content
    case GetterSetter => Accessor("[Getter/Setter]")
    case Getter => Accessor("[Getter]")
    case Setter => Accessor("[Setter]")
    case Data(v) =>
      if v.Ref? && v.id in path then Circular
      else Show(g, showHidden, v, Deeper(depth), path)
  }

  function Deeper(depth: Option<int>): Option<int> {
    if depth == None then None else Some(depth.value - 1)
  }

  lemma FreeShrinks(g: Graph, path: seq<Id>, id: Id)
    requires id in g && id !in path
    ensures |Free(g, path + [id])| < |Free(g, path)|
  {
    assert Free(g, path + [id]) == Free(g, path) - {id};
  }

  // ---------- the implementation ----------

  class Inspect {
    const graph: Graph
    const showHidden: bool
    var seen: seq<Id>                  // ctx.seen

    constructor (graph: Graph, showHidden: bool)
      ensures this.graph == graph && this.showHidden == showHidden && seen == []
    {
      this.graph := graph;
      this.showHidden := showHidden;
      seen := [];
    }

    predicate Distinct()
      reads this
    {
      forall i, j | 0 <= i < j < |seen| :: seen[i] != seen[j]
    }

    method FormatValue(value: Value, recurseTimes: Option<int>) returns (str: string)
      requires Closed(graph) && InGraph(graph, value) && (value.Ref? ==> value.id !in seen) && Distinct()
      modifies this`seen
      ensures seen == old(seen)
      ensures str == Layout(Show(graph, showHidden, value, recurseTimes, old(seen)))
      ensures IsTextOf(Show(graph, showHidden, value, recurseTimes, old(seen)), str)
      decreases |Free(graph, seen)|, 1
    {
      hide Slots, ShowSlot, Keys, ReduceToSingleString, LayoutEntry, Layout, Show, IsTextOf;
      LayoutIsText(Show(graph, showHidden, value, recurseTimes, seen));
      LayoutWhole(graph, showHidden, value, recurseTimes, seen);
      if value.Primitive? {
        return value.text;
      }
      var o := graph[value.id];
      var keys := Keys(o.props, showHidden);
      if keys == [] && o.leaf.Some? {
        return o.leaf.value;
      }
      if keys == [] && (!o.isArray || o.length == 0) {
        return Braces(o.isArray).0 + o.base + Braces(o.isArray).1;
      }
      if recurseTimes.Some? && recurseTimes.value < 0 {
        return o.cut;
      }
      FreeShrinks(graph, seen, value.id);
      SlotsSubset(o, showHidden);
      seen := seen + [value.id];
      var output := FormatSlots(o, recurseTimes);
      seen := seen[..|seen| - 1];
      str := ReduceToSingleString(output, o.base, o.isArray);
      LayoutExpanded(graph, showHidden, value, recurseTimes, seen, output);
    }

    /** The properties of one object: array elements first, then the named keys. */
    method FormatSlots(o: Obj, recurseTimes: Option<int>) returns (output: seq<string>)
      requires Closed(graph) && Distinct() && SlotsInGraph(graph, o, showHidden)
      modifies this`seen
      ensures seen == old(seen) && |output| == |Slots(o, showHidden)|
      ensures forall j | 0 <= j < |output| ::
                var entry := ShowSlot(graph, showHidden, Slots(o, showHidden)[j], o, recurseTimes, old(seen));
                output[j] == LayoutEntry(entry, o.isArray)
      decreases |Free(graph, seen)|, 4
    {
      hide Slots, Closed, LayoutEntry, Layout, Show, ShowContent, IsTextOf;
      var slots := Slots(o, showHidden);
      output := [];
      for i := 0 to |slots|
        invariant seen == old(seen) && |output| == i
        invariant forall j | 0 <= j < i ::
          output[j] == LayoutEntry(ShowSlot(graph, showHidden, slots[j], o, recurseTimes, old(seen)), o.isArray)
      {
        var text := "";
        HoleText(o.isArray);
        if slots[i].Some? {
          text := FormatProperty(o, slots[i].value, recurseTimes);
        }
        output := output + [text];
      }
    }

    method FormatProperty(o: Obj, p: Prop, recurseTimes: Option<int>) returns (str: string)
      requires Closed(graph) && (p.content.Data? ==> InGraph(graph, p.content.value)) && Distinct()
      modifies this`seen
      ensures seen == old(seen)
      ensures str == LayoutEntry(ShowSlot(graph, showHidden, Some(p), o, recurseTimes, old(seen)), o.isArray)
      decreases |Free(graph, seen)|, 2
    {
      hide Indent, Prefix, IsTextOf;
      match p.content {
        case GetterSetter => str := "[Getter/Setter]";
        case Getter => str := "[Getter]";
        case Setter => str := "[Setter]";
        case Data(v) =>
          if !(v.Ref? && v.id in seen) {
            str := FormatValue(v, Deeper(recurseTimes));
            str := Indent(str, o.isArray);
          } else {
            str := "[Circular]";
          }
      }
      str := Prefix(p, o.isArray) + str;
    }
  }

  lemma HoleText(isArray: bool)
    ensures LayoutEntry(Hole, isArray) == ""
  {
  }

  lemma LayoutWhole(g: Graph, showHidden: bool, v: Value, depth: Option<int>, path: seq<Id>)
    requires Closed(g) && InGraph(g, v) && (v.Ref? ==> v.id !in path)
    ensures v.Primitive? ==> Layout(Show(g, showHidden, v, depth, path)) == v.text
    ensures v.Ref? && !Expands(g[v.id], showHidden, depth) ==>
              Layout(Show(g, showHidden, v, depth, path)) == WholeText(g[v.id], showHidden)
  {
  }

  lemma LayoutExpanded(g: Graph, showHidden: bool, v: Value, depth: Option<int>, path: seq<Id>, output: seq<string>)
    requires Closed(g) && v.Ref? && v.id in g && v.id !in path && Expands(g[v.id], showHidden, depth)
    requires |output| == |Slots(g[v.id], showHidden)|
    requires SlotsInGraph(g, g[v.id], showHidden)
    requires forall j | 0 <= j < |output| ::
               var entry := ShowSlot(g, showHidden, Slots(g[v.id], showHidden)[j], g[v.id], depth, path + [v.id]);
               output[j] == LayoutEntry(entry, g[v.id].isArray)
    ensures Layout(Show(g, showHidden, v, depth, path)) == ReduceToSingleString(output, g[v.id].base, g[v.id].isArray)
  {
    hide ReduceToSingleString, Slots, ShowSlot, LayoutEntry;
    var doc := Show(g, showHidden, v, depth, path);
    assert output == seq(|doc.entries|, i requires 0 <= i < |doc.entries| => LayoutEntry(doc.entries[i], doc.isArray));
  }
}
