/** Updating the template tree and reading it back, for every interleaving of the goroutines. */
module TemplateRoundTrip {
  import opened Common
  import opened TemplateForest
  import opened TemplateUpdate

  // ---------- forests as parent relations ----------

  /** Every node with its parent. */
  function Pairs(t: seq<Tree>, parent: Option<string>): set<Write>
    decreases t
  {
    set v, w | v in t && w in PairsAt(v, parent) :: w
  }

  function PairsAt(v: Tree, parent: Option<string>): set<Write>
    decreases v
  {
    {Write(v.name, parent)} + Pairs(v.nodes, Some(v.name))
  }

  function Names(t: seq<Tree>): set<string>
    decreases t
  {
    set v, n | v in t && n in NamesAt(v) :: n
  }

  function NamesAt(v: Tree): set<string>
    decreases v
  {
    {v.name} + Names(v.nodes)
  }

  predicate DistinctTree(t: seq<Tree>)
    decreases t
  {
    && (forall i, j | 0 <= i < j < |t| :: NamesAt(t[i]) !! NamesAt(t[j]))
    && forall v | v in t :: v.name !in Names(v.nodes) && DistinctTree(v.nodes)
  }

  /** Writes below a node with an empty name are never spawned. */
  predicate NoUnnamedParent(t: seq<Tree>)
    decreases t
  {
    forall v | v in t :: (v.name == "" ==> v.nodes == []) && NoUnnamedParent(v.nodes)
  }

  predicate NamedTops(t: seq<Tree>) {
    forall v | v in t :: v.name != ""
  }

  /** A forest up to the order of siblings. */
  datatype Unordered = Unordered(name: string, below: set<Unordered>)

  function Shape(t: seq<Tree>): set<Unordered>
    decreases t
  {
    set v | v in t :: Unordered(v.name, Shape(v.nodes))
  }

  lemma {:induction false} WritesArePairs(t: seq<Tree>, parent: string)
    ensures NestedWrites(t, parent) <= Pairs(t, Some(parent))
    ensures NoUnnamedParent(t) && (parent != "" || t == []) ==> NestedWrites(t, parent) == Pairs(t, Some(parent))
    decreases t
  {
    forall v | v in t
      ensures WritesAt(v, parent) <= PairsAt(v, Some(parent))
      ensures NoUnnamedParent(t) && parent != "" ==> WritesAt(v, parent) == PairsAt(v, Some(parent))
    {
      WritesArePairs(v.nodes, v.name);
    }
  }

  lemma TopWritesArePairs(t: seq<Tree>)
    ensures TopWrites(t, "") <= Pairs(t, None)
    ensures NoUnnamedParent(t) && NamedTops(t) ==> TopWrites(t, "") == Pairs(t, None)
  {
    forall v | v in t
      ensures TopWritesAt(v, "") <= PairsAt(v, None)
      ensures NoUnnamedParent(t) && NamedTops(t) ==> TopWritesAt(v, "") == PairsAt(v, None)
    {
      WritesArePairs(v.nodes, v.name);
    }
  }

  lemma {:induction false} PairsAreNamed(t: seq<Tree>, parent: Option<string>)
    ensures forall w | w in Pairs(t, parent) :: w.name in Names(t)
    ensures forall w | w in Pairs(t, parent) :: w.parent == parent || (w.parent.Some? && w.parent.value in Names(t))
    ensures forall n | n in Names(t) :: exists w :: w in Pairs(t, parent) && w.name == n
    decreases t
  {
    forall v | v in t
      ensures forall w | w in PairsAt(v, parent) :: w.name in NamesAt(v)
      ensures forall w | w in PairsAt(v, parent) ::
                w.parent == parent || (w.parent.Some? && w.parent.value in NamesAt(v))
      ensures forall n | n in NamesAt(v) :: exists w :: w in PairsAt(v, parent) && w.name == n
    {
      PairsAreNamed(v.nodes, Some(v.name));
      assert Write(v.name, parent) in PairsAt(v, parent);
    }
    forall n | n in Names(t) ensures exists w :: w in Pairs(t, parent) && w.name == n {
      var v :| v in t && n in NamesAt(v);
      var w :| w in PairsAt(v, parent) && w.name == n;
      assert w in Pairs(t, parent);
    }
  }

  lemma {:induction false} OnePairEach(t: seq<Tree>, parent: Option<string>, w: Write, w': Write)
    requires DistinctTree(t) && w in Pairs(t, parent) && w' in Pairs(t, parent) && w.name == w'.name
    ensures w == w'
    decreases t
  {
    var i :| 0 <= i < |t| && w in PairsAt(t[i], parent);
    var j :| 0 <= j < |t| && w' in PairsAt(t[j], parent);
    PairsAreNamed(t[i].nodes, Some(t[i].name));
    PairsAreNamed(t[j].nodes, Some(t[j].name));
    assert w.name in NamesAt(t[i]) && w.name in NamesAt(t[j]);
    assert i == j;
    if w.name != t[i].name {
      OnePairEach(t[i].nodes, Some(t[i].name), w, w');
    }
  }

  // ---------- a table that agrees with a forest ----------

  /** The rows with this parent are the nodes here, and so on below each of them. */
  ghost predicate Agrees(items: seq<Row>, t: seq<Tree>, parent: Option<string>)
    decreases t
  {
    && (forall r | r in items && r.parent == parent :: exists v | v in t :: v.name == r.name)
    && forall v | v in t :: HasRow(items, v.name, parent) && Agrees(items, v.nodes, Some(v.name))
  }

  lemma {:induction false} AgreesFrom(items: seq<Row>, t: seq<Tree>, parent: Option<string>, other: set<Write>)
    requires DistinctTree(t) && (parent.Some? ==> parent.value !in Names(t))
    requires forall r | r in items :: Write(r.name, r.parent) in Pairs(t, parent) + other
    requires forall w | w in Pairs(t, parent) :: HasRow(items, w.name, w.parent)
    requires forall w | w in other :: w.parent != parent && (w.parent.Some? ==> w.parent.value !in Names(t))
    ensures Agrees(items, t, parent)
    decreases t
  {
    forall r | r in items && r.parent == parent ensures exists v | v in t :: v.name == r.name {
      TopPair(t, parent, Write(r.name, r.parent));
    }
    forall v | v in t ensures HasRow(items, v.name, parent) && Agrees(items, v.nodes, Some(v.name)) {
      var other' := (other + Pairs(t, parent)) - Pairs(v.nodes, Some(v.name));
      BelowPairs(t, parent, v);
      assert HasRow(items, v.name, parent) by {
        assert Write(v.name, parent) in Pairs(t, parent);
      }
      forall w | w in other'
        ensures w.parent != Some(v.name) && (w.parent.Some? ==> w.parent.value !in Names(v.nodes))
      {
        OthersElsewhere(t, parent, v, w, other);
      }
      AgreesFrom(items, v.nodes, Some(v.name), other');
    }
  }

  lemma BelowPairs(t: seq<Tree>, parent: Option<string>, v: Tree)
    requires v in t
    ensures Write(v.name, parent) in Pairs(t, parent)
    ensures Pairs(v.nodes, Some(v.name)) <= Pairs(t, parent)
    ensures v.name in Names(t) && Names(v.nodes) <= Names(t)
    ensures DistinctTree(t) ==> v.name !in Names(v.nodes) && DistinctTree(v.nodes)
  {
    assert Write(v.name, parent) in PairsAt(v, parent);
    assert forall w | w in Pairs(v.nodes, Some(v.name)) :: w in PairsAt(v, parent);
    assert v.name in NamesAt(v) && forall n | n in Names(v.nodes) :: n in NamesAt(v);
  }

  /** A pair with the forest's own parent is one of its top nodes. */
  lemma TopPair(t: seq<Tree>, parent: Option<string>, w: Write)
    requires (parent.Some? ==> parent.value !in Names(t)) && w in Pairs(t, parent) && w.parent == parent
    ensures exists v | v in t :: v.name == w.name
  {
    var v :| v in t && w in PairsAt(v, parent);
    BelowPairs(t, parent, v);
    PairsAreNamed(v.nodes, Some(v.name));
  }

  /** A pair from outside v's children does not name v or anything below it as parent. */
  lemma OthersElsewhere(t: seq<Tree>, parent: Option<string>, v: Tree, w: Write, other: set<Write>)
    requires DistinctTree(t) && (parent.Some? ==> parent.value !in Names(t)) && v in t
    requires forall w | w in other :: w.parent.Some? ==> w.parent.value !in Names(t)
    requires w in other + Pairs(t, parent) && w !in Pairs(v.nodes, Some(v.name))
    ensures w.parent.Some? ==> w.parent.value != v.name && w.parent.value !in Names(v.nodes)
  {
    BelowPairs(t, parent, v);
    if w in Pairs(t, parent) {
      var u :| u in t && w in PairsAt(u, parent);
      PairsAreNamed(u.nodes, Some(u.name));
      if u != v {
        Apart(t, u, v);
      }
    }
  }

  lemma Apart(t: seq<Tree>, u: Tree, v: Tree)
    requires DistinctTree(t) && u in t && v in t && u != v
    ensures u.name != v.name && u.name !in Names(v.nodes) && v.name !in Names(u.nodes)
    ensures Names(u.nodes) !! Names(v.nodes)
  {
    var i :| 0 <= i < |t| && t[i] == u;
    var j :| 0 <= j < |t| && t[j] == v;
    assert NamesAt(u) !! NamesAt(v);
    assert u.name in NamesAt(u) && v.name in NamesAt(v);
    assert Names(u.nodes) <= NamesAt(u) && Names(v.nodes) <= NamesAt(v);
  }

  lemma RenderMembers(items: seq<Row>, path: seq<string>, n: nat)
    requires UniqueNames(items) && IsChain(items, path) && n <= |items| && |path| <= |items|
    ensures forall u :: u in RenderFirst(items, path, n) <==>
              exists i | 0 <= i < n :: items[i].parent == ParentOf(path) && u == RenderItem(items, path, i)
  {
    if n > 0 {
      RenderMembers(items, path, n - 1);
    }
  }

  /** Reading an agreeing table gives the forest back, up to the order of siblings. */
  lemma {:induction false} RenderAgrees(items: seq<Row>, path: seq<string>, t: seq<Tree>)
    requires UniqueNames(items) && IsChain(items, path) && Agrees(items, t, ParentOf(path))
    ensures Shape(Render(items, path)) == Shape(t)
    decreases t
  {
    ChainBound(items, path);
    RenderMembers(items, path, |items|);
    forall i, v | 0 <= i < |items| && items[i].parent == ParentOf(path) && v in t && v.name == items[i].name
      ensures Shape(RenderItem(items, path, i).nodes) == Shape(v.nodes)
    {
      ChainExtend(items, path, v.name);
      assert ParentOf(path + [v.name]) == Some(v.name);
      RenderAgrees(items, path + [v.name], v.nodes);
    }
    forall s ensures s in Shape(Render(items, path)) <==> s in Shape(t) {
      ShapeMember(items, path, t, s);
    }
  }

  lemma ShapeMember(items: seq<Row>, path: seq<string>, t: seq<Tree>, s: Unordered)
    requires UniqueNames(items) && IsChain(items, path) && Agrees(items, t, ParentOf(path)) && |path| <= |items|
    requires forall u :: u in Render(items, path) <==>
               exists i | 0 <= i < |items| :: items[i].parent == ParentOf(path) && u == RenderItem(items, path, i)
    requires forall i, v | 0 <= i < |items| && items[i].parent == ParentOf(path) && v in t && v.name == items[i].name ::
               Shape(RenderItem(items, path, i).nodes) == Shape(v.nodes)
    ensures s in Shape(Render(items, path)) <==> s in Shape(t)
  {
    if s in Shape(Render(items, path)) {
      var u :| u in Render(items, path) && s == Unordered(u.name, Shape(u.nodes));
      var i :| 0 <= i < |items| && items[i].parent == ParentOf(path) && u == RenderItem(items, path, i);
      assert items[i] in items;
      var v :| v in t && v.name == items[i].name;
    }
    if s in Shape(t) {
      var v :| v in t && s == Unordered(v.name, Shape(v.nodes));
      assert HasRow(items, v.name, ParentOf(path));
      var i :| 0 <= i < |items| && items[i].name == v.name && items[i].parent == ParentOf(path);
      assert RenderItem(items, path, i) in Render(items, path);
    }
  }

  // ---------- main results ----------

  function ItemNames(rows: map<string, Row>): set<string> {
    set n | n in rows && rows[n].typ == "item"
  }

  /** Once all goroutines have finished, in whatever order they ran, reading the tree gives the tree
      that was written, up to the order of siblings. */
  lemma UpdateThenGet(start: map<string, Row>, tree: seq<Tree>, rows: map<string, Row>, items: seq<Row>)
    requires Settled(start, TopWrites(tree, ""), rows) && Lists(items, rows)
    requires DistinctTree(tree) && NoUnnamedParent(tree) && NamedTops(tree) && Names(tree) == ItemNames(start)
    ensures Shape(Forest(items)) == Shape(tree)
  {
    hide IsChain, Render, UniqueNames, Shape, Pairs, Names, DistinctTree, NoUnnamedParent, TopWrites;
    TopWritesArePairs(tree);
    PairsAreNamed(tree, None);
    forall r | r in items ensures Write(r.name, r.parent) in Pairs(tree, None) {
      SettledPair(start, tree, rows, r.name);
    }
    forall w | w in Pairs(tree, None) ensures HasRow(items, w.name, w.parent) {
      SettledPair(start, tree, rows, w.name);
      var r := rows[w.name];
      assert r in items;
      OnePairEach(tree, None, w, Write(r.name, r.parent));
      var i :| 0 <= i < |items| && items[i] == r;
    }
    AgreesFrom(items, tree, None, {});
    RootChain(items);
    RenderAgrees(items, [], tree);
  }

  /** Every item ends with the parent it has in the forest. */
  lemma SettledPair(start: map<string, Row>, tree: seq<Tree>, rows: map<string, Row>, n: string)
    requires Settled(start, TopWrites(tree, ""), rows) && TopWrites(tree, "") == Pairs(tree, None)
    requires Names(tree) == ItemNames(start) && n in Names(tree)
    ensures n in rows && rows[n].typ == "item" && Write(n, rows[n].parent) in Pairs(tree, None)
  {
    hide Pairs, Names, TopWrites;
    PairsAreNamed(tree, None);
    var w :| w in Pairs(tree, None) && w.name == n;
    assert Accepted(start, w);
    assert w !in multiset{};
  }

  /** One call, its goroutines, and whatever read comes after. */
  method UpdateAndSettle(s: Templates, tree: seq<Tree>)
    requires s.pending == multiset{}
    requires DistinctTree(tree) && NoUnnamedParent(tree) && NamedTops(tree) && Names(tree) == ItemNames(s.rows)
    modifies s
    ensures s.pending == multiset{}
    ensures forall items | Lists(items, s.rows) :: Shape(Forest(items)) == Shape(tree)
  {
    hide Settling, UniqueNames, Shape, Forest, TopWrites;
    s.UpdateItemsTree(tree, "");
    s.Drain();
    forall items | Lists(items, s.rows) ensures Shape(Forest(items)) == Shape(tree) {
      UpdateThenGet(s.start, tree, s.rows, items);
    }
  }

  // ---------- which forests survive ----------

  /** Whatever the table was, however the goroutines ran and in whatever order the rows are listed. */
  ghost predicate Survives(tree: seq<Tree>) {
    forall start, rows, items |
      Settled(start, TopWrites(tree, ""), rows) && Lists(items, rows) && Names(tree) == ItemNames(start) ::
      Shape(Forest(items)) == Shape(tree)
  }

  /** A forest with distinct names is read back exactly if no top node and no parent has an empty name. */
  lemma SurvivesExactly(tree: seq<Tree>)
    requires DistinctTree(tree)
    ensures Survives(tree) <==> NoUnnamedParent(tree) && NamedTops(tree)
  {
    hide Shape, Forest, TopWrites, Settled, UniqueNames, DistinctTree, NoUnnamedParent, NamedTops, Names;
    if NoUnnamedParent(tree) && NamedTops(tree) {
      forall start, rows, items |
        Settled(start, TopWrites(tree, ""), rows) && Lists(items, rows) && Names(tree) == ItemNames(start)
        ensures Shape(Forest(items)) == Shape(tree)
      {
        UpdateThenGet(start, tree, rows, items);
      }
    } else {
      var start, rows, items := LostNode(tree);
    }
  }

  /** A node nobody writes a parent for stays its own parent and drops out of the forest. */
  lemma LostNode(tree: seq<Tree>) returns (start: map<string, Row>, rows: map<string, Row>, items: seq<Row>)
    requires DistinctTree(tree) && !(NoUnnamedParent(tree) && NamedTops(tree))
    ensures Settled(start, TopWrites(tree, ""), rows) && Lists(items, rows) && Names(tree) == ItemNames(start)
    ensures Shape(Forest(items)) != Shape(tree)
  {
    hide Shape, Pairs, Names, DistinctTree, NoUnnamedParent, NamedTops, TopWrites, Flatten, Render, Reachable;
    var issued := TopWrites(tree, "");
    TopWritesArePairs(tree);
    start := SelfParented(Names(tree));
    rows := AfterWrites(start, issued);
    PairsAreNamed(tree, None);
    SettledAfter(start, issued);
    items := AllRows(rows);
    var w := Unwritten(tree);
    assert rows[w.name] == Row(w.name, "", "", "item", Some(w.name));
    Listed(items, rows, w.name);
    SelfParentIsLost(items, w.name);
    if Shape(Forest(items)) == Shape(tree) {
      SameNames(Forest(items), tree);
    }
  }

  /** Every item is its own parent, which the foreign key allows. */
  function SelfParented(names: set<string>): map<string, Row> {
    map n | n in names :: Row(n, "", "", "item", Some(n))
  }

  /** The table once the issued writes, at most one for each name, have all run. */
  ghost function AfterWrites(start: map<string, Row>, issued: set<Write>): map<string, Row> {
    map n | n in start ::
      if exists w :: w in issued && w.name == n then
        var w :| w in issued && w.name == n;
        start[n].(parent := w.parent)
      else start[n]
  }

  lemma SettledAfter(start: map<string, Row>, issued: set<Write>)
    requires forall w | w in issued :: Accepted(start, w)
    ensures Settled(start, issued, AfterWrites(start, issued))
    ensures forall n | n in start && (forall w | w in issued :: w.name != n) ::
              AfterWrites(start, issued)[n] == start[n]
  {
    var rows := AfterWrites(start, issued);
    forall n | n in rows && rows[n] != start[n] ensures Write(n, rows[n].parent) in issued {
      var w :| w in issued && w.name == n && rows[n] == start[n].(parent := w.parent);
      assert w == Write(n, rows[n].parent);
    }
  }

  predicate HasParent(rows: map<string, Row>, name: string, parent: Option<string>) {
    name in rows && rows[name].parent == parent
  }

  /** Any issued write that the table accepts may be the last one for its name. */
  lemma AnyWriteMayWin(start: map<string, Row>, issued: set<Write>, w: Write) returns (rows: map<string, Row>)
    requires (forall v | v in issued :: Accepted(start, v)) && w in issued && w.name in start
    ensures Settled(start, issued, rows) && HasParent(rows, w.name, w.parent)
  {
    SettledAfter(start, issued);
    rows := AfterWrites(start, issued)[w.name := start[w.name].(parent := w.parent)];
    assert w == Write(w.name, w.parent);
  }

  /** Under a parent of its own the call writes every top node twice, and either write may be the last:
      a node ends below that parent or without one, and both do happen. */
  lemma TopsRace(start: map<string, Row>, tree: seq<Tree>, parent: string, v: Tree)
    returns (below: map<string, Row>, detached: map<string, Row>)
    requires parent != "" && parent in start && DistinctTree(tree) && Names(tree) <= start.Keys
    requires v in tree && v.name != ""
    ensures forall rows: map<string, Row> | Settled(start, TopWrites(tree, parent), rows) ::
              HasParent(rows, v.name, Some(parent)) || HasParent(rows, v.name, None)
    ensures Settled(start, TopWrites(tree, parent), below) && HasParent(below, v.name, Some(parent))
    ensures Settled(start, TopWrites(tree, parent), detached) && HasParent(detached, v.name, None)
  {
    hide Settling, Names, Pairs, DistinctTree, NestedWrites, TopWrites;
    var issued := TopWrites(tree, parent);
    BelowPairs(tree, None, v);
    TopsIssued(start, tree, parent, v);
    below := AnyWriteMayWin(start, issued, Write(v.name, Some(parent)));
    detached := AnyWriteMayWin(start, issued, Write(v.name, None));
    forall rows: map<string, Row> | Settled(start, issued, rows)
      ensures HasParent(rows, v.name, Some(parent)) || HasParent(rows, v.name, None)
    {
      WrittenFrom(start, issued, rows, Write(v.name, None));
    }
  }

  lemma WrittenFrom(start: map<string, Row>, issued: set<Write>, rows: map<string, Row>, w: Write)
    requires Settled(start, issued, rows) && w in issued && Accepted(start, w) && w.name in start
    ensures w.name in rows && Write(w.name, rows[w.name].parent) in issued
  {
    assert w !in multiset{};
  }

  lemma TopsIssued(start: map<string, Row>, tree: seq<Tree>, parent: string, v: Tree)
    requires parent != "" && parent in start && DistinctTree(tree) && Names(tree) <= start.Keys
    requires v in tree && v.name != ""
    ensures var issued := TopWrites(tree, parent);
            && Write(v.name, Some(parent)) in issued && Write(v.name, None) in issued && v.name in Names(tree)
            && (forall w | w in issued :: Accepted(start, w))
            && forall w | w in issued && w.name == v.name :: w.parent == Some(parent) || w.parent == None
  {
    hide NestedWrites, Names, DistinctTree, Pairs;
    var issued := TopWrites(tree, parent);
    BelowPairs(tree, None, v);
    assert Write(v.name, Some(parent)) in TopWritesAt(v, parent) && Write(v.name, None) in TopWritesAt(v, parent);
    forall w | w in issued
      ensures Accepted(start, w)
      ensures w.name == v.name ==> w.parent == Some(parent) || w.parent == None
    {
      var u :| u in tree && w in TopWritesAt(u, parent);
      BelowPairs(tree, None, u);
      if w in NestedWrites(u.nodes, u.name) {
        WritesArePairs(u.nodes, u.name);
        PairsAreNamed(u.nodes, Some(u.name));
        if w.name == v.name {
          OnePairEach(tree, None, w, Write(v.name, None));
        }
      }
    }
  }

  /** The rows of a table of items, in some order. */
  lemma {:induction false} AllRows(rows: map<string, Row>) returns (items: seq<Row>)
    requires forall n | n in rows :: rows[n].name == n && rows[n].typ == "item"
    ensures Lists(items, rows)
    decreases |rows|
  {
    if rows == map[] {
      items := [];
    } else {
      var n :| n in rows;
      var rest := rows - {n};
      assert rows.Keys == rest.Keys + {n};
      var others := AllRows(rest);
      items := others + [rows[n]];
      OneMoreRow(others, rest, rows[n], rows);
    }
  }

  lemma OneMoreRow(items: seq<Row>, rest: map<string, Row>, row: Row, rows: map<string, Row>)
    requires Lists(items, rest) && row.name !in rest && row.typ == "item" && rows == rest[row.name := row]
    ensures Lists(items + [row], rows)
  {
    forall i | 0 <= i < |items| ensures items[i].name != row.name {
      assert items[i] in items;
    }
  }

  /** Every write is for a named parent, or detaches a named node. */
  lemma {:induction false} NestedWritesNamed(t: seq<Tree>, parent: string)
    ensures forall w | w in NestedWrites(t, parent) :: w.parent.Some? && w.parent != Some("")
    decreases t
  {
    forall v | v in t ensures forall w | w in WritesAt(v, parent) :: w.parent.Some? && w.parent != Some("") {
      NestedWritesNamed(v.nodes, v.name);
    }
  }

  lemma TopWritesNamed(t: seq<Tree>)
    ensures forall w | w in TopWrites(t, "") :: w.parent != Some("") && w != Write("", None)
  {
    forall v | v in t
      ensures forall w | w in TopWritesAt(v, "") :: w.parent != Some("") && w != Write("", None)
    {
      NestedWritesNamed(v.nodes, v.name);
    }
  }

  lemma {:induction false} UnnamedParent(t: seq<Tree>, parent: Option<string>) returns (w: Write)
    requires !NoUnnamedParent(t)
    ensures w in Pairs(t, parent) && w.parent == Some("")
    decreases t
  {
    var v :| v in t && !((v.name == "" ==> v.nodes == []) && NoUnnamedParent(v.nodes));
    BelowPairs(t, parent, v);
    if NoUnnamedParent(v.nodes) {
      w := Write(v.nodes[0].name, Some(""));
      BelowPairs(v.nodes, Some(""), v.nodes[0]);
    } else {
      w := UnnamedParent(v.nodes, Some(v.name));
    }
  }

  /** A node that no write is issued for. */
  lemma Unwritten(tree: seq<Tree>) returns (w: Write)
    requires DistinctTree(tree) && !(NoUnnamedParent(tree) && NamedTops(tree))
    ensures w in Pairs(tree, None) && forall v | v in TopWrites(tree, "") :: v.name != w.name
  {
    hide Pairs, DistinctTree, NoUnnamedParent, TopWrites;
    TopWritesArePairs(tree);
    TopWritesNamed(tree);
    if NamedTops(tree) {
      w := UnnamedParent(tree, None);
    } else {
      var top :| top in tree && top.name == "";
      BelowPairs(tree, None, top);
      w := Write("", None);
    }
    forall v | v in TopWrites(tree, "") ensures v.name != w.name {
      if v.name == w.name {
        OnePairEach(tree, None, v, w);
      }
    }
  }

  lemma {:induction false} FlattenNames(t: seq<Tree>, parent: Option<string>)
    ensures forall n | n in Names(t) :: exists r :: r in Flatten(t, parent) && r.name == n
    decreases t
  {
    if t != [] {
      var init, last := t[..|t| - 1], t[|t| - 1];
      assert t == init + [last];
      FlattenNames(init, parent);
      FlattenOneNames(last, parent);
      forall n | n in Names(t) ensures exists r :: r in Flatten(t, parent) && r.name == n {
        var v :| v in t && n in NamesAt(v);
        if v in init {
          assert n in Names(init);
          var r :| r in Flatten(init, parent) && r.name == n;
          assert r in Flatten(t, parent);
        } else {
          var r :| r in FlattenOne(last, parent) && r.name == n;
          assert r in Flatten(t, parent);
        }
      }
    }
  }

  lemma {:induction false} FlattenOneNames(v: Tree, parent: Option<string>)
    ensures forall n | n in NamesAt(v) :: exists r :: r in FlattenOne(v, parent) && r.name == n
    decreases v
  {
    FlattenNames(v.nodes, Some(v.name));
    assert Row(v.name, v.description, v.status, "item", parent) in FlattenOne(v, parent);
    forall n | n in Names(v.nodes) ensures exists r :: r in FlattenOne(v, parent) && r.name == n {
      var r :| r in Flatten(v.nodes, Some(v.name)) && r.name == n;
      assert r in FlattenOne(v, parent);
    }
  }

  lemma Listed(items: seq<Row>, rows: map<string, Row>, n: string)
    requires Lists(items, rows) && n in rows && rows[n].typ == "item"
    ensures HasRow(items, n, rows[n].parent)
  {
    assert rows[n] in items;
  }

  lemma SelfParentIsLost(items: seq<Row>, n: string)
    requires UniqueNames(items) && forall i | 0 <= i < |items| :: items[i].typ == "item"
    requires HasRow(items, n, Some(n))
    ensures n !in Names(Forest(items))
  {
    hide Flatten, Render, Names;
    if n in Names(Forest(items)) {
      FlattenNames(Forest(items), None);
      ForestIsReachable(items);
      var r :| r in Flatten(Forest(items), None) && r.name == n;
      var path :| IsChain(items, path) && ParentOf(path) == Some(n);
      var m := |path| - 1;
      OneParent(items, n, Some(n), ParentOf(path[..m]));
      ChainBound(items, path);
      assert false;
    }
  }

  lemma {:induction false} SameNames(t: seq<Tree>, u: seq<Tree>)
    requires Shape(t) == Shape(u)
    ensures Names(u) <= Names(t)
    decreases t
  {
    forall n | n in Names(u) ensures n in Names(t) {
      var v :| v in u && n in NamesAt(v);
      assert Unordered(v.name, Shape(v.nodes)) in Shape(t);
      var x :| x in t && Unordered(x.name, Shape(x.nodes)) == Unordered(v.name, Shape(v.nodes));
      SameNames(x.nodes, v.nodes);
      assert n in NamesAt(x);
    }
  }
  /** Writing back the tree that was read changes nothing, in every interleaving, even when some
      items are on a cycle and so not in the tree. */
  lemma GetThenUpdate(start: map<string, Row>, items: seq<Row>, rows: map<string, Row>)
    requires Lists(items, start) && Settled(start, TopWrites(Forest(items), ""), rows)
    ensures rows == start
  {
    TopWritesArePairs(Forest(items));
    RenderedPairs(items, []);
    forall n | n in rows ensures rows[n] == start[n] {
      if Write(n, rows[n].parent) in TopWrites(Forest(items), "") {
        assert HasRow(items, n, rows[n].parent);
        var i :| 0 <= i < |items| && items[i].name == n && items[i].parent == rows[n].parent;
        assert items[i] in items;
      }
    }
  }

  lemma {:induction false} RenderedPairs(items: seq<Row>, path: seq<string>)
    requires UniqueNames(items) && IsChain(items, path)
    ensures forall w | w in Pairs(Render(items, path), ParentOf(path)) :: HasRow(items, w.name, w.parent)
    decreases |items| - |path|
  {
    ChainBound(items, path);
    RenderMembers(items, path, |items|);
    assert Render(items, path) == RenderFirst(items, path, |items|);
    forall w | w in Pairs(Render(items, path), ParentOf(path)) ensures HasRow(items, w.name, w.parent) {
      var u :| u in Render(items, path) && w in PairsAt(u, ParentOf(path));
      var i :| 0 <= i < |items| && items[i].parent == ParentOf(path) && u == RenderItem(items, path, i);
      if w != Write(u.name, ParentOf(path)) {
        var below := path + [items[i].name];
        ChainExtend(items, path, items[i].name);
        ChainBound(items, below);
        RenderedPairs(items, below);
      }
    }
  }
}
