/** The template table and its forest: unfolding the parent column by recursive scans, with a
    termination argument that needs no acyclicity. */
module TemplateForest {
  import opened Common

  datatype Row = Row(name: string, description: string, status: string, typ: string, parent: Option<string>)

  datatype Tree = Node(name: string, description: string, status: string, nodes: seq<Tree>)

  /** Names are the table's primary key. */
  predicate UniqueNames(items: seq<Row>) {
    forall i, j | 0 <= i < j < |items| :: items[i].name != items[j].name
  }

  // ---------- chains of parents ----------

  function ParentOf(path: seq<string>): Option<string> {
    if path == [] then None else Some(path[|path| - 1])
  }

  predicate HasRow(items: seq<Row>, name: string, parent: Option<string>) {
    exists i | 0 <= i < |items| :: items[i].name == name && items[i].parent == parent
  }

  /** `path` leads down from a parentless item, each name the parent of the next. */
  predicate IsChain(items: seq<Row>, path: seq<string>) {
    forall i | 0 <= i < |path| :: HasRow(items, path[i], ParentOf(path[..i]))
  }

  /** The parent chain of `name` ends at a parentless item. */
  ghost predicate Reachable(items: seq<Row>, name: string) {
    exists path :: IsChain(items, path) && ParentOf(path) == Some(name)
  }

  lemma {:induction false} ChainUnique(items: seq<Row>, p: seq<string>, q: seq<string>)
    requires UniqueNames(items) && IsChain(items, p) && IsChain(items, q)
    requires ParentOf(p) == ParentOf(q)
    ensures p == q
    decreases |p|
  {
    if p != [] {
      var m, n := |p| - 1, |q| - 1;
      OneParent(items, p[m], ParentOf(p[..m]), ParentOf(q[..n]));
      ChainPrefix(items, p, m);
      ChainPrefix(items, q, n);
      ChainUnique(items, p[..m], q[..n]);
      assert p == p[..m] + [p[m]] && q == q[..n] + [q[n]];
    }
  }

  /** A name has one row, and the row one parent. */
  lemma OneParent(items: seq<Row>, name: string, a: Option<string>, b: Option<string>)
    requires UniqueNames(items) && HasRow(items, name, a) && HasRow(items, name, b)
    ensures a == b
  {
    var i :| 0 <= i < |items| && items[i].name == name && items[i].parent == a;
    var j :| 0 <= j < |items| && items[j].name == name && items[j].parent == b;
    assert i == j;
  }

  lemma ChainPrefix(items: seq<Row>, path: seq<string>, n: nat)
    requires IsChain(items, path) && n <= |path|
    ensures IsChain(items, path[..n])
  {
    forall i | 0 <= i < n ensures HasRow(items, path[..n][i], ParentOf(path[..n][..i])) {
      assert path[..n][..i] == path[..i];
    }
  }

  lemma ChainExtend(items: seq<Row>, path: seq<string>, name: string)
    requires IsChain(items, path) && HasRow(items, name, ParentOf(path))
    ensures IsChain(items, path + [name])
  {
    var longer := path + [name];
    forall i | 0 <= i < |longer| ensures HasRow(items, longer[i], ParentOf(longer[..i])) {
      assert longer[..i] == path[..i];
    }
    assert longer[..|path|] == path == path[..|path|];
  }

  lemma ChainNoRepeat(items: seq<Row>, path: seq<string>, i: nat, j: nat)
    requires UniqueNames(items) && IsChain(items, path) && i < j < |path|
    ensures path[i] != path[j]
  {
    hide IsChain, UniqueNames;
    ChainPrefix(items, path, i + 1);
    ChainPrefix(items, path, j + 1);
    SameEnd(items, path[..i + 1], path[..j + 1]);
    assert |path[..i + 1]| < |path[..j + 1]|;
  }

  /** No name repeats along a chain, whatever cycles the table has, so chains are short. */
  lemma ChainBound(items: seq<Row>, path: seq<string>)
    requires UniqueNames(items) && IsChain(items, path)
    ensures |path| <= |items|
    ensures forall i, j | 0 <= i < j < |path| :: path[i] != path[j]
  {
    forall i, j | 0 <= i < j < |path| ensures path[i] != path[j] {
      ChainNoRepeat(items, path, i, j);
    }
    var names := seq(|items|, i requires 0 <= i < |items| => items[i].name);
    forall i | 0 <= i < |path| ensures path[i] in names {
      NameListed(items, path[i], ParentOf(path[..i]), names);
    }
    Pigeonhole(path, names);
  }

  lemma NameListed(items: seq<Row>, name: string, parent: Option<string>, names: seq<string>)
    requires HasRow(items, name, parent)
    requires |names| == |items| && forall i | 0 <= i < |items| :: names[i] == items[i].name
    ensures name in names
  {
    var j :| 0 <= j < |items| && items[j].name == name && items[j].parent == parent;
    assert names[j] == name;
  }

  // ---------- unfolding the table ----------

  /** The items whose parent is the end of `path`, with everything below them, in table order. */
  function Render(items: seq<Row>, path: seq<string>): seq<Tree>
    requires UniqueNames(items) && IsChain(items, path)
    decreases |items| - |path|, |items| + 1
  {
    ChainBound(items, path);
    RenderFirst(items, path, |items|)
  }

  function RenderFirst(items: seq<Row>, path: seq<string>, n: nat): seq<Tree>
    requires UniqueNames(items) && IsChain(items, path) && n <= |items| && |path| <= |items|
    decreases |items| - |path|, n
  {
    if n == 0 then []
    else
      var item := items[n - 1];
      var before := RenderFirst(items, path, n - 1);
      if item.parent != ParentOf(path) then before
      else before + [RenderItem(items, path, n - 1)]
  }

  function RenderItem(items: seq<Row>, path: seq<string>, i: nat): Tree
    requires UniqueNames(items) && IsChain(items, path) && i < |items| && |path| <= |items|
    requires items[i].parent == ParentOf(path)
    decreases |items| - |path|, 0
  {
    var item := items[i];
    ChainExtend(items, path, item.name);
    ChainBound(items, path + [item.name]);
    Node(item.name, item.description, item.status, Render(items, path + [item.name]))
  }

  /** The forest that GetItemsTree returns. */
  function Forest(items: seq<Row>): seq<Tree>
    requires UniqueNames(items)
  {
    Render(items, [])
  }

  /** `path` is the chain from the root to `c`; it only bounds the recursion. */
  method RenderTreeRecursive(items: seq<Row>, c: string, ghost path: seq<string>) returns (nodes: seq<Tree>)
    requires UniqueNames(items) && IsChain(items, path) && ParentOf(path) == Some(c)
    ensures nodes == Render(items, path)
    decreases |items| - |path|
  {
    nodes := [];
    ChainBound(items, path);
    for n := 0 to |items|
      invariant nodes == RenderFirst(items, path, n)
    {
      var item := items[n];
      if item.parent == Some(c) {
        ChainExtend(items, path, item.name);
        ChainBound(items, path + [item.name]);
        var below := RenderTreeRecursive(items, item.name, path + [item.name]);
        nodes := nodes + [Node(item.name, item.description, item.status, below)];
      }
    }
  }

  method GetItemsTree(items: seq<Row>) returns (tree: seq<Tree>)
    requires UniqueNames(items)
    ensures tree == Forest(items)
  {
    tree := [];
    for n := 0 to |items|
      invariant tree == RenderFirst(items, [], n)
    {
      var item := items[n];
      if item.parent == None {
        ChainExtend(items, [], item.name);
        ChainBound(items, [] + [item.name]);
        var below := RenderTreeRecursive(items, item.name, [] + [item.name]);
        tree := tree + [Node(item.name, item.description, item.status, below)];
      }
    }
  }

  // ---------- what the forest holds ----------

  /** The rows a forest stands for, with their parents, in preorder. */
  function Flatten(forest: seq<Tree>, parent: Option<string>): seq<Row>
    decreases forest
  {
    if forest == [] then []
    else
      var last := forest[|forest| - 1];
      Flatten(forest[..|forest| - 1], parent) + FlattenOne(last, parent)
  }

  function FlattenOne(t: Tree, parent: Option<string>): seq<Row>
    decreases t
  {
    [Row(t.name, t.description, t.status, "item", parent)] + Flatten(t.nodes, Some(t.name))
  }

  predicate DistinctNames(rows: seq<Row>) {
    forall i, j | 0 <= i < j < |rows| :: rows[i].name != rows[j].name
  }

  /** `row` sits strictly below the end of `path`, through one of the first n items. */
  ghost predicate Below(items: seq<Row>, path: seq<string>, n: nat, row: Row)
    requires n <= |items|
  {
    && row in items
    && exists ext: seq<string> :: IsBelow(items, path, n, row.name, ext)
  }

  predicate IsBelow(items: seq<Row>, path: seq<string>, n: nat, name: string, ext: seq<string>)
    requires n <= |items|
  {
    && ext != [] && IsChain(items, path + ext) && ext[|ext| - 1] == name
    && exists i | 0 <= i < n :: items[i].name == ext[0]
  }

  /** GetItemsTree shows exactly the items whose parent chain ends at a parentless item, each once,
      with its own description, status and parent; items on or below a cycle do not appear. */
  lemma ForestIsReachable(items: seq<Row>)
    requires UniqueNames(items) && forall i | 0 <= i < |items| :: items[i].typ == "item"
    ensures DistinctNames(Flatten(Forest(items), None))
    ensures forall r :: r in Flatten(Forest(items), None) <==> r in items && Reachable(items, r.name)
  {
    hide Render, Flatten, Below, Reachable, IsChain;
    assert IsChain(items, []) by { RootChain(items); }
    RenderHolds(items, []);
    forall r: Row ensures Below(items, [], |items|, r) <==> r in items && Reachable(items, r.name) {
      BelowRoot(items, r);
    }
  }

  lemma RootChain(items: seq<Row>)
    ensures IsChain(items, [])
  {
  }

  lemma BelowRoot(items: seq<Row>, r: Row)
    ensures Below(items, [], |items|, r) <==> r in items && Reachable(items, r.name)
  {
    if r in items && Reachable(items, r.name) {
      var path :| IsChain(items, path) && ParentOf(path) == Some(r.name);
      assert [] + path == path;
      assert HasRow(items, path[0], ParentOf(path[..0]));
      assert IsBelow(items, [], |items|, r.name, path);
    }
    if Below(items, [], |items|, r) {
      var ext :| IsBelow(items, [], |items|, r.name, ext);
      assert [] + ext == ext;
      assert ParentOf(ext) == Some(r.name);
    }
  }

  ghost predicate Holds(items: seq<Row>, path: seq<string>, n: nat, rows: seq<Row>)
    requires n <= |items|
  {
    && DistinctNames(rows)
    && forall r :: r in rows <==> Below(items, path, n, r)
  }

  lemma {:induction false} RenderHolds(items: seq<Row>, path: seq<string>)
    requires UniqueNames(items) && forall i | 0 <= i < |items| :: items[i].typ == "item"
    requires IsChain(items, path)
    ensures Holds(items, path, |items|, Flatten(Render(items, path), ParentOf(path)))
    decreases |items| - |path|, |items| + 1
  {
    ChainBound(items, path);
    RenderFirstHolds(items, path, |items|);
  }

  lemma {:induction false} RenderFirstHolds(items: seq<Row>, path: seq<string>, n: nat)
    requires UniqueNames(items) && forall i | 0 <= i < |items| :: items[i].typ == "item"
    requires IsChain(items, path) && n <= |items| && |path| <= |items|
    ensures Holds(items, path, n, Flatten(RenderFirst(items, path, n), ParentOf(path)))
    decreases |items| - |path|, n
  {
    if n > 0 {
      RenderFirstHolds(items, path, n - 1);
      var item := items[n - 1];
      if item.parent == ParentOf(path) {
        ChainExtend(items, path, item.name);
        ChainBound(items, path + [item.name]);
        RenderHolds(items, path + [item.name]);
        assert RenderFirst(items, path, n)[..|RenderFirst(items, path, n)| - 1] == RenderFirst(items, path, n - 1);
        HoldsItem(items, path, n, Flatten(RenderFirst(items, path, n - 1), ParentOf(path)),
                  Flatten(Render(items, path + [item.name]), Some(item.name)));
      } else {
        NotBelowItem(items, path, n);
      }
    }
  }

  /** The first step below `path` is a child row of its end. */
  lemma FirstStep(items: seq<Row>, path: seq<string>, ext: seq<string>)
    requires ext != [] && IsChain(items, path + ext)
    ensures HasRow(items, ext[0], ParentOf(path))
  {
    var p := path + ext;
    assert p[|path|] == ext[0] && p[..|path|] == path;
  }

  lemma StepIsChild(items: seq<Row>, path: seq<string>, ext: seq<string>, i: nat)
    requires UniqueNames(items) && ext != [] && IsChain(items, path + ext) && i < |items|
    ensures items[i].name == ext[0] ==> items[i].parent == ParentOf(path)
  {
    FirstStep(items, path, ext);
    if items[i].name == ext[0] {
      OneParent(items, ext[0], items[i].parent, ParentOf(path));
    }
  }

  lemma NotBelowItem(items: seq<Row>, path: seq<string>, n: nat)
    requires UniqueNames(items) && IsChain(items, path) && 0 < n <= |items|
    requires items[n - 1].parent != ParentOf(path)
    ensures forall r: Row :: Below(items, path, n, r) <==> Below(items, path, n - 1, r)
  {
    forall r: Row ensures Below(items, path, n, r) <==> Below(items, path, n - 1, r) {
      if Below(items, path, n, r) {
        var ext :| IsBelow(items, path, n, r.name, ext);
        StepIsChild(items, path, ext, n - 1);
        assert IsBelow(items, path, n - 1, r.name, ext);
      } else if Below(items, path, n - 1, r) {
        var ext :| IsBelow(items, path, n - 1, r.name, ext);
        assert IsBelow(items, path, n, r.name, ext);
      }
    }
  }

  /** A child row in front of everything below it. */
  lemma HoldsItem(items: seq<Row>, path: seq<string>, n: nat, before: seq<Row>, inner: seq<Row>)
    requires UniqueNames(items) && IsChain(items, path) && 0 < n <= |items|
    requires items[n - 1].parent == ParentOf(path)
    requires Holds(items, path, n - 1, before)
    requires Holds(items, path + [items[n - 1].name], |items|, inner)
    ensures Holds(items, path, n, before + ([items[n - 1]] + inner))
  {
    hide IsChain, UniqueNames, Below;
    var item := items[n - 1];
    var below := path + [item.name];
    var all := before + ([item] + inner);
    ChainExtend(items, path, item.name);
    forall r ensures r in all <==> Below(items, path, n, r) {
      if r in all {
        ItemBelow(items, path, n, before, inner, r);
      }
      if Below(items, path, n, r) {
        BelowItem(items, path, n, before, inner, r);
      }
    }
    forall r | r in before ensures r.name != item.name {
      OtherBranch(items, path, n, r, below);
    }
    forall r | r in inner ensures r.name != item.name {
      StrictlyBelow(items, below, r);
    }
    forall r, q | r in before && q in inner ensures r.name != q.name {
      var ext := WayDown(items, below, q);
      OtherBranch(items, path, n, r, below + ext);
    }
  }

  lemma WayDown(items: seq<Row>, path: seq<string>, r: Row) returns (ext: seq<string>)
    requires Below(items, path, |items|, r)
    ensures IsChain(items, path + ext) && ParentOf(path + ext) == Some(r.name)
  {
    ext :| IsBelow(items, path, |items|, r.name, ext);
  }

  /** A row below one of the first n - 1 items is not on a chain through item n - 1. */
  lemma OtherBranch(items: seq<Row>, path: seq<string>, n: nat, r: Row, chain: seq<string>)
    requires UniqueNames(items) && 0 < n <= |items| && Below(items, path, n - 1, r)
    requires IsChain(items, chain) && |path| < |chain| && chain[|path|] == items[n - 1].name
    ensures ParentOf(chain) != Some(r.name)
  {
    hide IsChain;
    var ext :| IsBelow(items, path, n - 1, r.name, ext);
    assert (path + ext)[|path|] == ext[0];
    SameEnd(items, path + ext, chain);
  }

  lemma StrictlyBelow(items: seq<Row>, path: seq<string>, r: Row)
    requires UniqueNames(items) && IsChain(items, path) && Below(items, path, |items|, r)
    ensures ParentOf(path) != Some(r.name)
  {
    hide IsChain;
    var ext :| IsBelow(items, path, |items|, r.name, ext);
    assert |path + ext| > |path|;
    SameEnd(items, path + ext, path);
  }

  lemma SameEnd(items: seq<Row>, p: seq<string>, q: seq<string>)
    requires UniqueNames(items) && IsChain(items, p) && IsChain(items, q)
    ensures ParentOf(p) == ParentOf(q) ==> p == q
  {
    if ParentOf(p) == ParentOf(q) {
      ChainUnique(items, p, q);
    }
  }

  lemma ItemBelow(items: seq<Row>, path: seq<string>, n: nat, before: seq<Row>, inner: seq<Row>, r: Row)
    requires UniqueNames(items) && 0 < n <= |items| && items[n - 1].parent == ParentOf(path)
    requires IsChain(items, path + [items[n - 1].name])
    requires Holds(items, path, n - 1, before)
    requires Holds(items, path + [items[n - 1].name], |items|, inner)
    requires r in before + ([items[n - 1]] + inner)
    ensures Below(items, path, n, r)
  {
    var below := path + [items[n - 1].name];
    if r in before {
      var ext :| IsBelow(items, path, n - 1, r.name, ext);
      assert IsBelow(items, path, n, r.name, ext);
    } else if r in inner {
      var ext :| IsBelow(items, below, |items|, r.name, ext);
      assert path + ([items[n - 1].name] + ext) == below + ext;
      assert IsBelow(items, path, n, r.name, [items[n - 1].name] + ext);
    } else {
      assert r == items[n - 1];
      assert IsBelow(items, path, n, r.name, [r.name]);
    }
  }

  lemma BelowItem(items: seq<Row>, path: seq<string>, n: nat, before: seq<Row>, inner: seq<Row>, r: Row)
    requires UniqueNames(items) && 0 < n <= |items| && items[n - 1].parent == ParentOf(path)
    requires Holds(items, path, n - 1, before)
    requires Holds(items, path + [items[n - 1].name], |items|, inner)
    requires Below(items, path, n, r)
    ensures r in before + ([items[n - 1]] + inner)
  {
    var below := path + [items[n - 1].name];
    var ext :| IsBelow(items, path, n, r.name, ext);
    var i :| 0 <= i < n && items[i].name == ext[0];
    if i < n - 1 {
      assert IsBelow(items, path, n - 1, r.name, ext);
      assert r in before;
    } else if |ext| > 1 {
      assert path + ext == below + ext[1..];
      FirstStep(items, below, ext[1..]);
      assert IsBelow(items, below, |items|, r.name, ext[1..]);
      assert r in inner;
    } else {
      assert r == items[n - 1];
    }
  }

  // ---------- the order of siblings ----------

  predicate IsBefore(items: seq<Row>, a: string, b: string) {
    exists i, j :: 0 <= i < j < |items| && items[i].name == a && items[j].name == b
  }

  /** Siblings stand in the order of their rows, at every level. */
  predicate InTableOrder(items: seq<Row>, t: seq<Tree>)
    decreases t
  {
    && (forall i, j | 0 <= i < j < |t| :: IsBefore(items, t[i].name, t[j].name))
    && forall v | v in t :: InTableOrder(items, v.nodes)
  }

  /** GetItemsTree keeps the order in which the rows were read. */
  lemma {:induction false} RenderInOrder(items: seq<Row>, path: seq<string>)
    requires UniqueNames(items) && IsChain(items, path)
    ensures InTableOrder(items, Render(items, path))
    decreases |items| - |path|, |items| + 1
  {
    ChainBound(items, path);
    RenderFirstInOrder(items, path, |items|);
  }

  lemma {:induction false} RenderFirstInOrder(items: seq<Row>, path: seq<string>, n: nat)
    requires UniqueNames(items) && IsChain(items, path) && n <= |items| && |path| <= |items|
    ensures InTableOrder(items, RenderFirst(items, path, n))
    ensures forall v | v in RenderFirst(items, path, n) :: exists i :: 0 <= i < n && items[i].name == v.name
    decreases |items| - |path|, n
  {
    if n > 0 {
      RenderFirstInOrder(items, path, n - 1);
      var item := items[n - 1];
      if item.parent == ParentOf(path) {
        ChainExtend(items, path, item.name);
        ChainBound(items, path + [item.name]);
        RenderInOrder(items, path + [item.name]);
        var before := RenderFirst(items, path, n - 1);
        forall i | 0 <= i < |before| ensures IsBefore(items, before[i].name, item.name) {
          assert before[i] in before;
          var k :| 0 <= k < n - 1 && items[k].name == before[i].name;
          assert items[n - 1].name == item.name;
        }
      }
    }
  }
}
