/** Resolve-or-create: references by name get the id of the row with that name, which is inserted
    first when it is missing. Used by entity Import and by variable CreateOrUpdate. */
module Registry {
  import opened Common
  import opened Transactions

  datatype Named = Named(id: int, name: string)

  datatype VariableRow = VariableRow(value: string, system: bool, entity: Option<string>)

  datatype EntityRow = EntityRow(payload: string, area: Option<int>)

  /** What an entity's state or action is stored with: its name without blanks around it, its script
      and everything else it has. */
  datatype Content = Content(name: string, data: string, script: Option<int>)

  datatype Owned = Owned(id: int, owner: string, content: Content)

  datatype Tables = Tables(
    tags: seq<Named>, scripts: seq<Named>, areas: seq<Named>, metrics: seq<int>,
    variables: map<string, VariableRow>, variableTags: set<(string, int)>,
    entities: map<string, EntityRow>, states: seq<Owned>, actions: seq<Owned>,
    entityTags: set<(string, int)>, entityScripts: set<(string, int)>, entityMetrics: set<(string, int)>)

  /** Primary key and unique name index; 0 stands for no id. */
  predicate Keyed(rows: seq<Named>) {
    && (forall i | 0 <= i < |rows| :: rows[i].id != 0)
    && forall i, j | 0 <= i < j < |rows| :: rows[i].id != rows[j].id && rows[i].name != rows[j].name
  }

  function Ids(rows: seq<Named>): seq<int> {
    seq(|rows|, i requires 0 <= i < |rows| => rows[i].id)
  }

  function NamesOf(rows: seq<Named>): set<string> {
    set r | r in rows :: r.name
  }

  /** Rows are only added, for names that had none, and afterwards every name in `names` has its one row. */
  predicate Resolved(rows: seq<Named>, rows': seq<Named>, names: set<string>) {
    rows <= rows' && Keyed(rows') && NamesOf(rows') == NamesOf(rows) + names
  }

  lemma KnownName(rows: seq<Named>, name: string)
    ensures name in NamesOf(rows) <==> exists i | 0 <= i < |rows| :: rows[i].name == name
  {
    if name in NamesOf(rows) {
      var r :| r in rows && r.name == name;
    }
    if i :| 0 <= i < |rows| && rows[i].name == name {
      assert rows[i] in rows;
    }
  }

  lemma ResolvedThen(a: seq<Named>, b: seq<Named>, c: seq<Named>, m: set<string>, n: set<string>)
    requires Resolved(a, b, m) && Resolved(b, c, n)
    ensures Resolved(a, c, m + n)
  {
  }

  /** Repeating an import whose names are all known inserts nothing. */
  lemma RepeatCreatesNone(a: seq<Named>, b: seq<Named>, c: seq<Named>, m: set<string>)
    requires Resolved(a, b, m) && Resolved(b, c, m)
    ensures c == b
  {
    if |c| > |b| {
      var extra := c[|b|];
      assert extra in c;
      assert extra.name in NamesOf(b);
      KnownName(b, extra.name);
      assert false;
    }
  }

  // ---------- one reference ----------

  /** GetByName, then Add when that gave nothing; `found` says which. The lookup may fail for other
      reasons, and the table refuses a name or an id that is taken. An insert with id 0 gets a fresh
      one. */
  method Resolve(rows: seq<Named>, name: string, id0: int, reliable: bool)
    returns (rows': seq<Named>, id: int, found: bool, outcome: Outcome)
    requires Keyed(rows)
    ensures outcome == Done ==> Resolved(rows, rows', {name}) && Named(id, name) in rows'
    ensures outcome == Done ==> (found <==> name in NamesOf(rows)) && (!found && id0 != 0 ==> id == id0)
    ensures outcome != Done ==> rows' == rows
    ensures reliable ==> (outcome == Done <==> name in NamesOf(rows) || id0 == 0 || id0 !in Ids(rows))
  {
    rows', id, found, outcome := rows, id0, false, Done;
    KnownName(rows, name);
    var lookup := Statement(reliable);
    if lookup == Done {
      for i := 0 to |rows|
        invariant forall j | 0 <= j < i :: rows[j].name != name
      {
        if rows[i].name == name {
          id, found := rows[i].id, true;
          assert Named(id, name) == rows[i];
          return;
        }
      }
    }
    if (exists i | 0 <= i < |rows| :: rows[i].name == name) || (id0 != 0 && id0 in Ids(rows)) {
      outcome := Failed;
      return;
    }
    var luck := Statement(reliable);
    if luck != Done {
      outcome := luck;
      return;
    }
    if id0 == 0 {
      ghost var g := FreshId(Ids(rows));
      assert g > 0 && g !in Ids(rows);
      id :| id > 0 && id !in Ids(rows);
    }
    rows' := rows + [Named(id, name)];
    forall i | 0 <= i < |rows| ensures rows[i].id != id {
      assert Ids(rows)[i] == rows[i].id;
    }
  }

  // ---------- the objects handed over ----------

  class Tag {
    var Id: int
    const Name: string
  }

  class Script {
    var Id: int
    const Name: string
  }

  /** Actions may come without a script, or with just its id. */
  class Action {
    var Id: int
    var EntityId: string
    const Name: string
    const Data: string
    const Script: Script?
    const ScriptId: Option<int>
  }

  function TagNames(tags: seq<Tag>): set<string> {
    set t | t in tags :: t.Name
  }

  function ScriptNames(scripts: seq<Script>): set<string> {
    set x | x in scripts :: x.Name
  }

  function ActionScripts(actions: seq<Action>): seq<Script> {
    if actions == [] then []
    else
      var last := actions[|actions| - 1].Script;
      ActionScripts(actions[..|actions| - 1]) + if last == null then [] else [last]
  }

  ghost predicate TagsHaveIds(tags: seq<Tag>, rows: seq<Named>)
    reads tags
  {
    forall t | t in tags :: Named(t.Id, t.Name) in rows
  }

  ghost predicate ScriptsHaveIds(scripts: seq<Script>, rows: seq<Named>)
    reads scripts
  {
    forall x | x in scripts :: Named(x.Id, x.Name) in rows
  }

  lemma NoTagNames(tags: seq<Tag>)
    requires tags == []
    ensures TagNames(tags) == {}
  {
  }

  lemma TagNamesAppend(tags: seq<Tag>, tag: Tag)
    ensures TagNames(tags + [tag]) == TagNames(tags) + {tag.Name}
  {
    assert tag in tags + [tag];
  }

  lemma NoScriptNames(scripts: seq<Script>)
    requires scripts == []
    ensures ScriptNames(scripts) == {}
  {
  }

  lemma ScriptNamesAppend(scripts: seq<Script>, script: Script)
    ensures ScriptNames(scripts + [script]) == ScriptNames(scripts) + {script.Name}
  {
    assert script in scripts + [script];
  }

  lemma NothingResolved(rows: seq<Named>)
    requires Keyed(rows)
    ensures Resolved(rows, rows, {})
  {
  }

  lemma RowsStay(rows: seq<Named>, rows': seq<Named>, names: set<string>)
    requires Resolved(rows, rows', names)
    ensures Keyed(rows') && forall r | r in rows :: r in rows'
  {
    forall r | r in rows ensures r in rows' {
      var i :| 0 <= i < |rows| && rows[i] == r;
      assert rows'[i] == r;
    }
  }

  method ResolveTags(s: Session<Tables>, tags: seq<Tag>) returns (outcome: Outcome)
    requires Keyed(s.tables.tags)
    modifies s, tags
    ensures s.Reliable ==> outcome == Done
    ensures outcome == Done ==>
              && s.tables == old(s.tables).(tags := s.tables.tags)
              && Resolved(old(s.tables.tags), s.tables.tags, TagNames(tags))
              && TagsHaveIds(tags, s.tables.tags)
  {
    hide Resolved, TagNames;
    ghost var rows := s.tables.tags;
    NothingResolved(rows);
    assert TagNames(tags[..0]) == {} by { NoTagNames(tags[..0]); }
    for i := 0 to |tags|
      invariant Keyed(s.tables.tags)
      invariant s.tables == old(s.tables).(tags := s.tables.tags)
      invariant Resolved(rows, s.tables.tags, TagNames(tags[..i]))
      invariant TagsHaveIds(tags[..i], s.tables.tags)
    {
      var tag := tags[i];
      var rows', id, found, result := Resolve(s.tables.tags, tag.Name, 0, s.Reliable);
      if result != Done {
        return result;
      }
      ResolvedThen(rows, s.tables.tags, rows', TagNames(tags[..i]), {tag.Name});
      RowsStay(s.tables.tags, rows', {tag.Name});
      TagNamesAppend(tags[..i], tag);
      tag.Id := id;
      s.tables := s.tables.(tags := rows');
      assert tags[..i + 1] == tags[..i] + [tag];
    }
    assert tags[..|tags|] == tags;
    return Done;
  }

  method ResolveScripts(s: Session<Tables>, scripts: seq<Script>) returns (outcome: Outcome)
    requires Keyed(s.tables.scripts)
    modifies s, scripts
    ensures s.Reliable ==> outcome == Done
    ensures outcome == Done ==>
              && s.tables == old(s.tables).(scripts := s.tables.scripts)
              && Resolved(old(s.tables.scripts), s.tables.scripts, ScriptNames(scripts))
              && ScriptsHaveIds(scripts, s.tables.scripts)
  {
    hide Resolved, ScriptNames;
    ghost var rows := s.tables.scripts;
    NothingResolved(rows);
    assert ScriptNames(scripts[..0]) == {} by { NoScriptNames(scripts[..0]); }
    for i := 0 to |scripts|
      invariant Keyed(s.tables.scripts)
      invariant s.tables == old(s.tables).(scripts := s.tables.scripts)
      invariant Resolved(rows, s.tables.scripts, ScriptNames(scripts[..i]))
      invariant ScriptsHaveIds(scripts[..i], s.tables.scripts)
    {
      var script := scripts[i];
      var rows', id, found, result := Resolve(s.tables.scripts, script.Name, 0, s.Reliable);
      if result != Done {
        return result;
      }
      ResolvedThen(rows, s.tables.scripts, rows', ScriptNames(scripts[..i]), {script.Name});
      RowsStay(s.tables.scripts, rows', {script.Name});
      ScriptNamesAppend(scripts[..i], script);
      script.Id := id;
      s.tables := s.tables.(scripts := rows');
      assert scripts[..i + 1] == scripts[..i] + [script];
    }
    assert scripts[..|scripts|] == scripts;
    return Done;
  }
}
