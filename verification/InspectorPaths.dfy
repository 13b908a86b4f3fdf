/** What the inspector prints where: one place per walk through the graph that repeats no object. */
module InspectorPaths {
  import opened Common
  import opened Decimal
  import opened Inspector
  import opened InspectorLayout

  /** The part of a document reached by taking these entries one after the other. */
  function DocAt(doc: Doc, steps: seq<nat>): Option<Doc> {
    if steps == [] then Some(doc)
    else if doc.Branch? && steps[0] < |doc.entries| && doc.entries[steps[0]].Entry? then
      DocAt(doc.entries[steps[0]].doc, steps[1..])
    else None
  }

  predicate Sound(g: Graph) {
    Closed(g) && forall id | id in g :: g[id].isArray ==> g[id].leaf == None
  }

  /** The property content reached in the graph by the same steps, cycles included. */
  function ContentAt(g: Graph, showHidden: bool, v: Value, steps: seq<nat>): (content: Option<Content>)
    requires Sound(g) && InGraph(g, v)
    ensures content.Some? && content.value.Data? ==> InGraph(g, content.value.value)
    decreases |steps|
  {
    if steps == [] then Some(Data(v))
    else if v.Primitive? then None
    else
      var slots := Slots(g[v.id], showHidden);
      if steps[0] >= |slots| || slots[steps[0]] == None then None
      else
        SlotsSubset(g[v.id], showHidden);
        var content := slots[steps[0]].value.content;
        if |steps| == 1 then Some(content)
        else if content.Data? then ContentAt(g, showHidden, content.value, steps[1..])
        else None
  }

  /** The objects whose properties the steps go through. */
  function Trail(g: Graph, showHidden: bool, v: Value, steps: seq<nat>): seq<Id>
    requires Sound(g) && InGraph(g, v) && ContentAt(g, showHidden, v, steps).Some?
    decreases |steps|
  {
    if steps == [] then []
    else
      SlotsSubset(g[v.id], showHidden);
      [v.id] + if |steps| == 1 then []
               else Trail(g, showHidden, Slots(g[v.id], showHidden)[steps[0]].value.content.value, steps[1..])
  }

  predicate NoRepeats(ids: seq<Id>) {
    forall i, j | 0 <= i < j < |ids| :: ids[i] != ids[j]
  }

  predicate IsOneOf(content: Content, ids: seq<Id>) {
    content.Data? && content.value.Ref? && content.value.id in ids
  }

  // ---------- depth ----------

  /** A depth limit admits places up to one step beyond it. */
  predicate Within(depth: Option<int>, n: nat) {
    n == 0 || depth == None || n <= depth.value + 1
  }

  function Left(depth: Option<int>, n: nat): Option<int> {
    if depth == None then None else Some(depth.value - n)
  }

  /** What is printed for a property content that is not circular, with this much depth left. */
  predicate Prints(g: Graph, showHidden: bool, content: Content, depth: Option<int>, doc: Doc)
    requires content.Data? ==> InGraph(g, content.value)
  {
    match content
    case GetterSetter => doc == Accessor("[Getter/Setter]")
    case Getter => doc == Accessor("[Getter]")
    case Setter => doc == Accessor("[Setter]")
    case Data(Primitive(text)) => doc == Text(text)
    case Data(Ref(id)) =>
      var o := g[id];
      if Keys(o.props, showHidden) == [] && o.leaf.Some? then doc == Text(o.leaf.value)
      else if Keys(o.props, showHidden) == [] && (!o.isArray || o.length == 0) then
        doc == Text(if o.isArray then "[" + o.base + "]" else "{" + o.base + "}")
      else if depth.Some? && depth.value < 0 then doc == Text(o.cut)
      else PrintsSlots(o, Slots(o, showHidden), doc)
  }

  /** One entry per slot: holes stay holes, and everything else has its name in front: a hidden key in
      brackets, nothing for a visible element of an array, and the key as it is shown for the rest. */
  predicate PrintsSlots(o: Obj, slots: seq<Option<Prop>>, doc: Doc) {
    && doc.Branch? && doc.isArray == o.isArray && doc.base == o.base && |doc.entries| == |slots|
    && forall i | 0 <= i < |slots| ::
         if slots[i] == None then doc.entries[i] == Hole
         else
           var p := slots[i].value;
           && doc.entries[i].Entry?
           && doc.entries[i].prefix ==
                if !p.enumerable then "[" + p.key + "]: "
                else if o.isArray && IsIndex(p.key) then ""
                else p.shown + ": "
  }

  // ---------- main result ----------

  /** For every depth, null included: a place is printed exactly when the walk to it stays within the
      depth and goes through no object twice; it prints [Circular] exactly when it holds an object
      that the walk went through, and otherwise it prints its own content. */
  lemma CircularExactly(g: Graph, showHidden: bool, v: Value, depth: Option<int>, steps: seq<nat>)
    requires Sound(g) && InGraph(g, v)
    ensures var doc := DocAt(Show(g, showHidden, v, depth, []), steps);
            var content := ContentAt(g, showHidden, v, steps);
            && (doc.Some? <==>
                  content.Some? && Within(depth, |steps|) && NoRepeats(Trail(g, showHidden, v, steps)))
            && (doc == Some(Circular) <==>
                  content.Some? && Within(depth, |steps|) && NoRepeats(Trail(g, showHidden, v, steps))
                  && IsOneOf(content.value, Trail(g, showHidden, v, steps)))
            && (doc.Some? && doc != Some(Circular) ==>
                  Prints(g, showHidden, content.value, Left(depth, |steps|), doc.value))
  {
    hide Show, Prints;
    Walk(g, showHidden, v, depth, [], steps);
    if ContentAt(g, showHidden, v, steps).Some? {
      assert [] + Trail(g, showHidden, v, steps) == Trail(g, showHidden, v, steps);
    }
  }

  /** The same below the objects on `path`. */
  predicate PrintedRight(g: Graph, showHidden: bool, v: Value, depth: Option<int>, path: seq<Id>, steps: seq<nat>)
    requires Sound(g) && InGraph(g, v) && (v.Ref? ==> v.id !in path)
  {
    var doc := DocAt(Show(g, showHidden, v, depth, path), steps);
    var content := ContentAt(g, showHidden, v, steps);
    if content == None then doc == None
    else
      var all := path + Trail(g, showHidden, v, steps);
      && (doc.Some? <==> Within(depth, |steps|) && NoRepeats(all))
      && (doc == Some(Circular) <==> Within(depth, |steps|) && NoRepeats(all) && IsOneOf(content.value, all))
      && (doc.Some? && doc != Some(Circular) ==> Prints(g, showHidden, content.value, Left(depth, |steps|), doc.value))
  }

  /** What Show prints at the place itself. */
  lemma ShowPrints(g: Graph, showHidden: bool, v: Value, depth: Option<int>, path: seq<Id>)
    requires Closed(g) && InGraph(g, v) && (v.Ref? ==> v.id !in path)
    ensures var doc := Show(g, showHidden, v, depth, path);
            && Prints(g, showHidden, Data(v), depth, doc) && !doc.Circular?
            && (doc.Branch? ==> v.Ref? && Expands(g[v.id], showHidden, depth))
  {
    hide Slots, Keys, ShowContent;
    if v.Ref? && Expands(g[v.id], showHidden, depth) {
      SlotsSubset(g[v.id], showHidden);
    }
  }

  lemma EmptyHasNoSlots(o: Obj, showHidden: bool)
    requires IsEmpty(o, showHidden) && (o.isArray ==> o.leaf == None)
    ensures Slots(o, showHidden) == []
  {
  }

  lemma {:induction false} Walk(g: Graph, showHidden: bool, v: Value, depth: Option<int>,
                                path: seq<Id>, steps: seq<nat>)
    requires Sound(g) && InGraph(g, v) && (v.Ref? ==> v.id !in path) && NoRepeats(path)
    ensures PrintedRight(g, showHidden, v, depth, path, steps)
    decreases |steps|
  {
    hide Slots, Keys, IsEmpty, WholeText, Show, Prints, ShowContent, NoRepeats;
    ShowPrints(g, showHidden, v, depth, path);
    if steps == [] {
      assert path + [] == path;
    } else if v.Ref? {
      var o := g[v.id];
      var slots := Slots(o, showHidden);
      if IsEmpty(o, showHidden) {
        EmptyHasNoSlots(o, showHidden);
      } else if depth.Some? && depth.value < 0 {
        assert !Within(depth, |steps|);
      } else if steps[0] >= |slots| || slots[steps[0]] == None {
        EntriesAreSlots(g, showHidden, v, depth, path);
      } else if steps[0] < |slots| && slots[steps[0]].Some? {
        SlotsSubset(o, showHidden);
        StepIn(g, showHidden, v, depth, path, steps);
      }
    }
  }

  lemma EntriesAreSlots(g: Graph, showHidden: bool, v: Value, depth: Option<int>, path: seq<Id>)
    requires Closed(g) && v.Ref? && v.id in g && v.id !in path && Expands(g[v.id], showHidden, depth)
    ensures var doc := Show(g, showHidden, v, depth, path);
            var slots := Slots(g[v.id], showHidden);
            SlotsInGraph(g, g[v.id], showHidden) && doc.Branch? && |doc.entries| == |slots| &&
            forall i | 0 <= i < |slots| ::
              doc.entries[i] == ShowSlot(g, showHidden, slots[i], g[v.id], depth, path + [v.id])
  {
    hide Slots, Keys, IsEmpty, WholeText;
    SlotsSubset(g[v.id], showHidden);
  }

  lemma {:induction false} StepIn(g: Graph, showHidden: bool, v: Value, depth: Option<int>,
                                  path: seq<Id>, steps: seq<nat>)
    requires Sound(g) && v.Ref? && v.id in g && v.id !in path && NoRepeats(path)
    requires steps != [] && Expands(g[v.id], showHidden, depth)
    requires steps[0] < |Slots(g[v.id], showHidden)| && Slots(g[v.id], showHidden)[steps[0]].Some?
    ensures PrintedRight(g, showHidden, v, depth, path, steps)
    decreases |steps|, 0
  {
    hide Slots, Keys, IsEmpty, WholeText, Show, NoRepeats, Prints, Expands;
    SlotsSubset(g[v.id], showHidden);
    var content := Slots(g[v.id], showHidden)[steps[0]].value.content;
    var path' := path + [v.id];
    FreshEnd(path, v.id);
    IntoEntry(g, showHidden, v, depth, path, steps);
    OneStepLess(g[v.id], showHidden, depth, |steps|);
    assert content.Data? ==> InGraph(g, content.value);
    if |steps| == 1 || !content.Data? {
      assert |steps| == 1 ==> path + Trail(g, showHidden, v, steps) == path';
      ContentPrints(g, showHidden, content, depth, path');
    } else if content.value.Ref? && content.value.id in path' {
      if ContentAt(g, showHidden, content.value, steps[1..]).Some? {
        Repeated(path, v.id, Trail(g, showHidden, content.value, steps[1..]));
      }
    } else {
      Walk(g, showHidden, content.value, Deeper(depth), path', steps[1..]);
      if ContentAt(g, showHidden, content.value, steps[1..]).Some? {
        assert path + Trail(g, showHidden, v, steps) == path' + Trail(g, showHidden, content.value, steps[1..]);
      }
    }
  }

  /** What is printed for a property below the objects on `path`. */
  lemma ContentPrints(g: Graph, showHidden: bool, content: Content, depth: Option<int>, path: seq<Id>)
    requires Closed(g) && (content.Data? ==> InGraph(g, content.value))
    ensures var doc := ShowContent(g, showHidden, content, depth, path);
            && (!content.Data? ==> doc.Accessor?)
            && (doc == Circular <==> IsOneOf(content, path))
            && (doc != Circular ==> Prints(g, showHidden, content, Deeper(depth), doc))
  {
    hide Show;
    if content.Data? && !(content.value.Ref? && content.value.id in path) {
      ShowPrints(g, showHidden, content.value, Deeper(depth), path);
    }
  }

  lemma OneStepLess(o: Obj, showHidden: bool, depth: Option<int>, n: nat)
    requires n > 0 && Expands(o, showHidden, depth)
    ensures Within(depth, n) <==> Within(Deeper(depth), n - 1)
    ensures Left(depth, n) == Left(Deeper(depth), n - 1)
    ensures Left(depth, 1) == Deeper(depth) && Within(depth, 1)
  {
  }

  /** The first step goes to the content of one property, below one more object. */
  lemma IntoEntry(g: Graph, showHidden: bool, v: Value, depth: Option<int>, path: seq<Id>, steps: seq<nat>)
    requires Sound(g) && v.Ref? && v.id in g && v.id !in path && steps != [] && Expands(g[v.id], showHidden, depth)
    requires steps[0] < |Slots(g[v.id], showHidden)| && Slots(g[v.id], showHidden)[steps[0]].Some?
    ensures SlotsInGraph(g, g[v.id], showHidden)
    ensures var content := Slots(g[v.id], showHidden)[steps[0]].value.content;
            DocAt(Show(g, showHidden, v, depth, path), steps)
            == DocAt(ShowContent(g, showHidden, content, depth, path + [v.id]), steps[1..])
  {
    hide Slots, Keys, IsEmpty, WholeText, Show, ShowContent;
    EntriesAreSlots(g, showHidden, v, depth, path);
  }

  lemma FreshEnd(path: seq<Id>, id: Id)
    requires NoRepeats(path) && id !in path
    ensures NoRepeats(path + [id])
  {
  }

  /** A walk that goes on through an object of its own path repeats it. */
  lemma Repeated(path: seq<Id>, id: Id, rest: seq<Id>)
    requires rest != [] && rest[0] in path + [id]
    ensures !NoRepeats(path + ([id] + rest))
  {
    var all := path + ([id] + rest);
    var i :| 0 <= i < |path + [id]| && (path + [id])[i] == rest[0];
    assert all[i] == rest[0] == all[|path| + 1];
  }
}
