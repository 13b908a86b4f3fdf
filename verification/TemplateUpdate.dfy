/** Writing a forest back into the parent column. Every parent write runs in a goroutine of its own,
    so the table may see the writes in any order and interleaved with the caller. */
module TemplateUpdate {
  import opened Common
  import opened TemplateForest

  datatype Write = Write(name: string, parent: Option<string>)

  // ---------- the writes a forest gives rise to ----------

  /** The writes spawned below a node named `parent`; an empty parent name spawns none. */
  function NestedWrites(t: seq<Tree>, parent: string): set<Write>
    decreases t
  {
    set v, w | v in t && w in WritesAt(v, parent) :: w
  }

  function WritesAt(v: Tree, parent: string): set<Write>
    decreases v
  {
    (if parent != "" then {Write(v.name, Some(parent))} else {}) + NestedWrites(v.nodes, v.name)
  }

  /** A top node is first detached from its parent by the caller itself, found by its primary key;
      an empty key is no condition, and an update without one is refused. */
  function TopWritesAt(v: Tree, parent: string): set<Write> {
    WritesAt(v, parent) + if v.name != "" then {Write(v.name, None)} else {}
  }

  function TopWrites(t: seq<Tree>, parent: string): set<Write> {
    set v, w | v in t && w in TopWritesAt(v, parent) :: w
  }

  lemma NestedWritesAppend(t: seq<Tree>, v: Tree, parent: string)
    ensures NestedWrites(t + [v], parent) == NestedWrites(t, parent) + WritesAt(v, parent)
  {
    hide WritesAt;
  }

  lemma TopWritesAppend(t: seq<Tree>, v: Tree, parent: string)
    ensures TopWrites(t + [v], parent) == TopWrites(t, parent) + TopWritesAt(v, parent)
  {
    hide TopWritesAt;
  }

  // ---------- what every interleaving guarantees ----------

  /** The foreign key of the parent column refuses other writes; the caller ignores the error. */
  predicate Accepted(rows: map<string, Row>, w: Write) {
    w.parent.Some? ==> w.parent.value in rows
  }

  /** Each row has its parent from one of the issued writes for its name that the table accepts, or is
      untouched and all of those are still pending. */
  ghost predicate Settling(start: map<string, Row>, issued: set<Write>, pending: multiset<Write>,
                           rows: map<string, Row>)
  {
    && rows.Keys == start.Keys
    && (forall w | w in pending :: w in issued)
    && forall n | n in rows ::
         && rows[n] == start[n].(parent := rows[n].parent)
         && ((Write(n, rows[n].parent) in issued && Accepted(start, Write(n, rows[n].parent)))
             || (rows[n].parent == start[n].parent
                 && forall w | w in issued && w.name == n && Accepted(start, w) :: w in pending))
  }

  lemma Idle(rows: map<string, Row>)
    ensures Settling(rows, {}, multiset{}, rows)
    ensures forall parent :: TopWrites([], parent) == {}
  {
  }

  class Templates {
    var rows: map<string, Row>
    var pending: multiset<Write>             // goroutines that have not run yet
    ghost var start: map<string, Row>        // the table before the call
    ghost var issued: set<Write>             // writes the call has issued so far

    ghost predicate Valid()
      reads this
    {
      Settling(start, issued, pending, rows)
    }

    /** One SQL update; it touches no row when the name is unknown or the parent is refused. */
    method Put(w: Write)
      modifies this`rows
      ensures rows == if w.name in old(rows) && Accepted(old(rows), w)
                      then old(rows)[w.name := old(rows)[w.name].(parent := w.parent)] else old(rows)
    {
      if w.name in rows && Accepted(rows, w) {
        rows := rows[w.name := rows[w.name].(parent := w.parent)];
      }
    }

    /** The scheduler runs any number of waiting goroutines, in any order. */
    method Schedule()
      requires Valid()
      modifies this`rows, this`pending
      ensures Valid() && pending <= old(pending)
    {
      var steps: nat := *;
      while steps > 0 && pending != multiset{}
        invariant Valid() && pending <= old(pending)
      {
        RunOne();
        steps := steps - 1;
      }
    }

    method RunOne()
      requires Valid() && pending != multiset{}
      modifies this`rows, this`pending
      ensures Valid() && pending < old(pending)
    {
      var w :| w in pending;
      Put(w);
      pending := pending - multiset{w};
    }

    /** Nothing left to run. */
    method Drain()
      requires Valid()
      modifies this`rows, this`pending
      ensures Valid() && pending == multiset{}
    {
      while pending != multiset{}
        invariant Valid()
        decreases pending
      {
        RunOne();
      }
    }

    method Go(name: string, parent: string)
      requires Valid()
      modifies this`rows, this`pending, this`issued
      ensures Valid() && issued == old(issued) + {Write(name, Some(parent))}
    {
      issued := issued + {Write(name, Some(parent))};
      pending := pending + multiset{Write(name, Some(parent))};
      Schedule();
    }

    method ClearParent(name: string)
      requires Valid()
      modifies this`rows, this`pending, this`issued
      ensures Valid() && issued == old(issued) + if name != "" then {Write(name, None)} else {}
    {
      if name != "" {
        issued := issued + {Write(name, None)};
        Put(Write(name, None));
      }
      Schedule();
    }

    method UpdateTreeRecursive(t: seq<Tree>, parent: string)
      requires Valid()
      modifies this`rows, this`pending, this`issued
      ensures Valid() && issued == old(issued) + NestedWrites(t, parent)
      decreases t
    {
      for i := 0 to |t|
        invariant Valid() && issued == old(issued) + NestedWrites(t[..i], parent)
      {
        var v := t[i];
        if parent != "" {
          Go(v.name, parent);
        }
        UpdateTreeRecursive(v.nodes, v.name);
        NestedWritesAppend(t[..i], v, parent);
        assert t[..i + 1] == t[..i] + [v];
      }
      assert t[..|t|] == t;
    }

    /** From an idle table. When the call returns its goroutines may still be pending; whenever they
        have all run, Settling with no pending write describes the table. */
    method UpdateItemsTree(tree: seq<Tree>, parent: string)
      requires pending == multiset{}
      modifies this
      ensures Valid() && start == old(rows) && issued == TopWrites(tree, parent)
    {
      hide Settling, TopWrites;
      start, issued := rows, {};
      Idle(rows);
      for i := 0 to |tree|
        invariant Valid() && start == old(rows) && issued == TopWrites(tree[..i], parent)
      {
        var v := tree[i];
        ghost var before := issued;
        if parent != "" {
          Go(v.name, parent);
        }
        ClearParent(v.name);
        if |v.nodes| != 0 {
          UpdateTreeRecursive(v.nodes, v.name);
        }
        assert issued == before + TopWritesAt(v, parent) by {
          assert |v.nodes| == 0 ==> NestedWrites(v.nodes, v.name) == {};
        }
        TopWritesAppend(tree[..i], v, parent);
        assert tree[..i + 1] == tree[..i] + [v];
      }
      assert tree[..|tree|] == tree;
    }
  }

  // ---------- the settled table ----------

  ghost predicate Settled(start: map<string, Row>, issued: set<Write>, rows: map<string, Row>) {
    Settling(start, issued, multiset{}, rows)
  }

  /** Every parent is a row of the table. */
  predicate ParentsExist(rows: map<string, Row>) {
    forall n | n in rows && rows[n].parent.Some? :: rows[n].parent.value in rows
  }

  /** At every moment of every interleaving the parent column points to rows. */
  lemma ForeignKeyKept(start: map<string, Row>, issued: set<Write>, pending: multiset<Write>, rows: map<string, Row>)
    requires Settling(start, issued, pending, rows) && ParentsExist(start)
    ensures ParentsExist(rows)
  {
  }

  /** `items` is the item rows of the table, in whatever order the query returns them. */
  ghost predicate Lists(items: seq<Row>, rows: map<string, Row>) {
    && (forall n | n in rows :: rows[n].name == n)
    && UniqueNames(items)
    && forall r :: r in items <==> r.name in rows && rows[r.name] == r && r.typ == "item"
  }
}
