/** The two transactions that resolve or create by name: entity Import and variable CreateOrUpdate. */
module Imports {
  import opened Common
  import opened Transactions
  import opened Registry

  class Area {
    var Id: int
    const Name: string
  }

  class State {
    var Id: int
    var EntityId: string
    const Name: string
    const Data: string
  }

  class Metric {
    var Id: int
  }

  class Entity {
    const Id: string
    const Payload: string
    const Area: Area?
    var AreaId: Option<int>
    const Tags: seq<Tag>
    const Scripts: seq<Script>
    const Actions: seq<Action>
    const States: seq<State>
    const Metrics: seq<Metric>
  }

  class Variable {
    const Name: string
    const Value: string
    const System: bool
    const EntityId: Option<string>
    const Tags: seq<Tag>
  }

  predicate ValidTables(t: Tables) {
    Keyed(t.tags) && Keyed(t.scripts) && Keyed(t.areas)
  }

  // ---------- variables ----------

  function LinksOf(owner: string, tags: seq<Tag>): set<(string, int)>
    reads tags
  {
    set t | t in tags :: (owner, t.Id)
  }

  /** Afterwards the variable has its new columns, its links are exactly the rows of its tags, every
      tag carries the id of the row with its name, and nothing else changed. */
  ghost predicate VariableSaved(t: Tables, u: Tables, v: Variable)
    reads v.Tags
  {
    && Resolved(t.tags, u.tags, TagNames(v.Tags)) && TagsHaveIds(v.Tags, u.tags)
    && u.variables == t.variables[v.Name := VariableRow(v.Value, v.System, v.EntityId)]
    && u.variableTags == (set l | l in t.variableTags && l.0 != v.Name) + LinksOf(v.Name, v.Tags)
    && u == t.(tags := u.tags, variables := u.variables, variableTags := u.variableTags)
  }

  method CreateOrUpdate(s: Session<Tables>, v: Variable, commits: bool) returns (failed: bool)
    requires ValidTables(s.tables)
    modifies s, v.Tags
    ensures failed || !commits ==> s.tables == old(s.tables)
    ensures !failed && commits ==> ValidTables(s.tables) && VariableSaved(old(s.tables), s.tables, v)
    ensures s.Reliable ==> (failed <==> v.EntityId.Some? && v.EntityId.value !in old(s.tables.entities))
  {
    hide Resolved, TagNames;
    var before := s.tables;
    var outcome := Statement(s.Reliable);
    if outcome == Done {
      // clear the old links
      s.tables := s.tables.(variableTags := set l | l in s.tables.variableTags && l.0 != v.Name);
      outcome := ResolveTags(s, v.Tags);
    }
    if outcome == Done {
      RowsStay(before.tags, s.tables.tags, TagNames(v.Tags));
      outcome := Statement(s.Reliable);
    }
    if outcome == Done {
      if v.EntityId.Some? && v.EntityId.value !in s.tables.entities {
        outcome := Failed;
      } else {
        // insert, or update on conflict, with one link per tag
        var row := VariableRow(v.Value, v.System, v.EntityId);
        s.tables := s.tables.(variables := s.tables.variables[v.Name := row],
                              variableTags := s.tables.variableTags + LinksOf(v.Name, v.Tags));
      }
    }
    failed := s.Finish(before, outcome, commits);
  }

  // ---------- the parts of an entity ----------

  function AreaOf(e: Entity): set<Area> {
    if e.Area == null then {} else {e.Area}
  }

  function AreaNames(e: Entity): set<string> {
    if e.Area == null then {} else {e.Area.Name}
  }

  /** The area is resolved; the entity is linked to it only if it was there before. */
  ghost predicate AreaImported(t: Tables, u: Tables, e: Entity, areaId: Option<int>)
    reads e, AreaOf(e)
  {
    && Resolved(t.areas, u.areas, AreaNames(e))
    && (e.Area != null ==> Named(e.Area.Id, e.Area.Name) in u.areas)
    && e.AreaId == if e.Area != null && e.Area.Name in NamesOf(t.areas) then Some(e.Area.Id) else areaId
  }

  /** The id that the area came with. */
  function AreaId0(e: Entity): int
    reads AreaOf(e)
  {
    if e.Area == null then 0 else e.Area.Id
  }

  /** A known area is found; a new one needs an id that is free, or none. */
  predicate AcceptsArea(t: Tables, e: Entity, id0: int) {
    e.Area != null ==> e.Area.Name in NamesOf(t.areas) || id0 == 0 || id0 !in Ids(t.areas)
  }

  method ImportArea(s: Session<Tables>, e: Entity) returns (outcome: Outcome)
    requires Keyed(s.tables.areas)
    modifies s, e, AreaOf(e)
    ensures s.Reliable ==> (outcome == Done <==> AcceptsArea(old(s.tables), e, old(AreaId0(e))))
    ensures outcome == Done ==>
              && s.tables == old(s.tables).(areas := s.tables.areas)
              && AreaImported(old(s.tables), s.tables, e, old(e.AreaId))
  {
    outcome := Done;
    if e.Area != null {
      var rows, id, found, result := Resolve(s.tables.areas, e.Area.Name, e.Area.Id, s.Reliable);
      if result != Done {
        return result;
      }
      e.Area.Id := id;
      if found {
        e.AreaId := Some(id);
      }
      s.tables := s.tables.(areas := rows);
    } else {
      NothingResolved(s.tables.areas);
    }
  }

  /** Every action is reset and attached to the entity; its script, if any, is resolved. */
  method ImportActions(s: Session<Tables>, actions: seq<Action>, entityId: string) returns (outcome: Outcome)
    requires Keyed(s.tables.scripts)
    modifies s, actions, ActionScripts(actions)
    ensures s.Reliable ==> outcome == Done
    ensures outcome == Done ==>
              && s.tables == old(s.tables).(scripts := s.tables.scripts)
              && Resolved(old(s.tables.scripts), s.tables.scripts, ScriptNames(ActionScripts(actions)))
              && ScriptsHaveIds(ActionScripts(actions), s.tables.scripts)
              && forall a | a in actions :: a.Id == 0 && a.EntityId == entityId
  {
    for i := 0 to |actions|
      invariant s.tables == old(s.tables)
      invariant forall j | 0 <= j < i :: actions[j].Id == 0 && actions[j].EntityId == entityId
    {
      actions[i].Id := 0;
      actions[i].EntityId := entityId;
    }
    outcome := ResolveScripts(s, ActionScripts(actions));
  }

  method ImportStates(states: seq<State>, entityId: string)
    modifies states
    ensures forall x | x in states :: x.Id == 0 && x.EntityId == entityId
  {
    for i := 0 to |states|
      invariant forall j | 0 <= j < i :: states[j].Id == 0 && states[j].EntityId == entityId
    {
      states[i].Id := 0;
      states[i].EntityId := entityId;
    }
  }

  /** The new ids are unused and repeat nothing. */
  predicate FreshlyAdded(ids: seq<int>, ids': seq<int>) {
    ids <= ids' && forall i, j | 0 <= i < j < |ids'| && |ids| <= j :: ids'[i] != ids'[j]
  }

  /** One new row for each metric, which gets its id. */
  ghost predicate MetricsAdded(t: seq<int>, u: seq<int>, metrics: seq<Metric>)
    reads metrics
  {
    && FreshlyAdded(t, u) && |u| == |t| + |metrics|
    && forall m | m in metrics :: m.Id in u[|t|..]
  }

  method AddMetrics(s: Session<Tables>, metrics: seq<Metric>) returns (outcome: Outcome)
    modifies s, metrics
    ensures s.Reliable ==> outcome == Done
    ensures outcome == Done ==>
              && s.tables == old(s.tables).(metrics := s.tables.metrics)
              && MetricsAdded(old(s.tables.metrics), s.tables.metrics, metrics)
  {
    ghost var before := s.tables.metrics;
    for i := 0 to |metrics|
      invariant s.tables == old(s.tables).(metrics := s.tables.metrics)
      invariant MetricsAdded(before, s.tables.metrics, metrics[..i])
    {
      outcome := Statement(s.Reliable);
      if outcome != Done {
        return;
      }
      ghost var g := FreshId(s.tables.metrics);
      var id: int :| id > 0 && id !in s.tables.metrics;
      label Before:
      metrics[i].Id := id;
      s.tables := s.tables.(metrics := s.tables.metrics + [id]);
      forall m | m in metrics[..i + 1] ensures m.Id in s.tables.metrics[|before|..] {
        assert s.tables.metrics[|before|..] == old@Before(s.tables.metrics)[|before|..] + [id];
        assert m == metrics[i] || m in metrics[..i];
      }
    }
    assert metrics[..|metrics|] == metrics;
    outcome := Done;
  }

  /** Scripts, tags and actions, in this order. */
  method ResolveReferences(s: Session<Tables>, e: Entity, ghost inActions: seq<Script>) returns (outcome: Outcome)
    requires Keyed(s.tables.tags) && Keyed(s.tables.scripts) && inActions == ActionScripts(e.Actions)
    modifies s, e.Tags, e.Scripts, e.Actions, inActions
    ensures s.Reliable ==> outcome == Done
    ensures outcome == Done ==>
              && Keyed(s.tables.tags) && Keyed(s.tables.scripts)
              && s.tables == old(s.tables).(tags := s.tables.tags, scripts := s.tables.scripts)
              && ReferencesResolved(old(s.tables), s.tables, e, inActions)
              && forall a | a in e.Actions :: a.Id == 0 && a.EntityId == e.Id
  {
    hide Resolved, TagNames, ScriptNames, Keyed, ActionScripts;
    ghost var before := s.tables;
    outcome := ResolveScripts(s, e.Scripts);
    if outcome != Done {
      return;
    }
    ghost var known := s.tables.scripts;
    RowsStay(before.scripts, known, ScriptNames(e.Scripts));
    outcome := ResolveTags(s, e.Tags);
    if outcome != Done {
      return;
    }
    RowsStay(before.tags, s.tables.tags, TagNames(e.Tags));
    outcome := ImportActions(s, e.Actions, e.Id);
    if outcome != Done {
      return;
    }
    RowsStay(known, s.tables.scripts, ScriptNames(inActions));
    ResolvedThen(before.scripts, known, s.tables.scripts, ScriptNames(e.Scripts), ScriptNames(inActions));
  }

  /** Every tag and every script, in the list or on an action, has the id of the row with its name. */
  ghost predicate ReferencesResolved(t: Tables, u: Tables, e: Entity, inActions: seq<Script>)
    reads e.Tags, e.Scripts, inActions
  {
    && Resolved(t.tags, u.tags, TagNames(e.Tags)) && TagsHaveIds(e.Tags, u.tags)
    && Resolved(t.scripts, u.scripts, ScriptNames(e.Scripts) + ScriptNames(inActions))
    && ScriptsHaveIds(e.Scripts, u.scripts) && ScriptsHaveIds(inActions, u.scripts)
  }

  // ---------- rows owned by the entity ----------

  function OwnedIds(rows: seq<Owned>): seq<int> {
    seq(|rows|, i requires 0 <= i < |rows| => rows[i].id)
  }

  /** One new row for each content, in order, with an unused id. */
  predicate OwnedAdded(rows: seq<Owned>, rows': seq<Owned>, owner: string, contents: seq<Content>) {
    && rows <= rows' && |rows'| == |rows| + |contents|
    && FreshlyAdded(OwnedIds(rows), OwnedIds(rows'))
    && forall i | |rows| <= i < |rows'| :: rows'[i].owner == owner && rows'[i].content == contents[i - |rows|]
  }

  /** The names under one owner are under a unique index. */
  predicate AcceptsNames(rows: seq<Owned>, owner: string, contents: seq<Content>) {
    && (forall i, j | 0 <= i < j < |contents| :: contents[i].name != contents[j].name)
    && forall r, c | r in rows && c in contents :: !(r.owner == owner && r.content.name == c.name)
  }

  predicate AcceptsScripts(scripts: seq<Named>, contents: seq<Content>) {
    forall c | c in contents && c.script.Some? :: c.script.value in Ids(scripts)
  }

  method AddOwned(rows: seq<Owned>, owner: string, contents: seq<Content>) returns (rows': seq<Owned>)
    ensures OwnedAdded(rows, rows', owner, contents)
  {
    rows' := rows;
    for i := 0 to |contents|
      invariant OwnedAdded(rows, rows', owner, contents[..i])
    {
      ghost var g := FreshId(OwnedIds(rows'));
      var id: int :| id > 0 && id !in OwnedIds(rows');
      var row := Owned(id, owner, contents[i]);
      assert OwnedIds(rows' + [row]) == OwnedIds(rows') + [id];
      rows' := rows' + [row];
    }
    assert contents[..|contents|] == contents;
  }

  function StateContents(states: seq<State>): seq<Content> {
    seq(|states|, i requires 0 <= i < |states| => Content(states[i].Name, states[i].Data, None))
  }

  /** An action is stored with the id of its script, if that is set, and with the id it came with otherwise. */
  function ActionContents(actions: seq<Action>, ghost inActions: seq<Script>): seq<Content>
    requires inActions == ActionScripts(actions)
    reads inActions
  {
    seq(|actions|, i requires 0 <= i < |actions| reads inActions =>
      ActionListed(actions, i);
      var x := actions[i].Script;
      Content(actions[i].Name, actions[i].Data, if x != null && x.Id != 0 then Some(x.Id) else actions[i].ScriptId))
  }

  lemma {:induction false} ActionListed(actions: seq<Action>, i: nat)
    requires i < |actions|
    ensures actions[i].Script != null ==> actions[i].Script in ActionScripts(actions)
  {
    if i < |actions| - 1 {
      ActionListed(actions[..|actions| - 1], i);
    }
  }

  function ScriptLinks(owner: string, scripts: seq<Script>): set<(string, int)>
    reads scripts
  {
    set x | x in scripts :: (owner, x.Id)
  }

  function MetricLinks(owner: string, metrics: seq<Metric>): set<(string, int)>
    reads metrics
  {
    set m | m in metrics :: (owner, m.Id)
  }

  // ---------- entities ----------

  /** The entity is new, with its columns, its states, its actions and exactly the links of its tags,
      scripts and metrics. */
  ghost predicate RowsAdded(t: Tables, u: Tables, e: Entity, inActions: seq<Script>)
    requires inActions == ActionScripts(e.Actions)
    reads e, e.Tags, e.Scripts, inActions, e.Metrics
  {
    && MetricsAdded(t.metrics, u.metrics, e.Metrics)
    && e.Id !in t.entities && u.entities == t.entities[e.Id := EntityRow(e.Payload, e.AreaId)]
    && (e.AreaId.Some? ==> e.AreaId.value in Ids(u.areas))
    && OwnedAdded(t.states, u.states, e.Id, StateContents(e.States))
    && OwnedAdded(t.actions, u.actions, e.Id, ActionContents(e.Actions, inActions))
    && u.entityTags == t.entityTags + LinksOf(e.Id, e.Tags)
    && u.entityScripts == t.entityScripts + ScriptLinks(e.Id, e.Scripts)
    && u.entityMetrics == t.entityMetrics + MetricLinks(e.Id, e.Metrics)
    && u.variables == t.variables && u.variableTags == t.variableTags
  }

  /** References are resolved and rows are added; `inActions` is the scripts on the actions and `areaId`
      the area the entity came with. */
  ghost predicate EntityImported(t: Tables, u: Tables, e: Entity, inActions: seq<Script>, areaId: Option<int>)
    requires inActions == ActionScripts(e.Actions)
    reads e, AreaOf(e), e.Tags, e.Scripts, inActions, e.Metrics
  {
    ReferencesResolved(t, u, e, inActions) && AreaImported(t, u, e, areaId) && RowsAdded(t, u, e, inActions)
  }

  /** The adaptor refuses ids with a space, and the tables refuse known ids, unknown areas and scripts,
      and names given twice. */
  predicate AcceptsEntity(t: Tables, id: string, areaId: Option<int>, states: seq<Content>, actions: seq<Content>) {
    && ' ' !in id && id !in t.entities && (areaId.Some? ==> areaId.value in Ids(t.areas))
    && AcceptsNames(t.states, id, states) && AcceptsNames(t.actions, id, actions)
    && AcceptsScripts(t.scripts, actions)
  }

  method AddEntity(s: Session<Tables>, e: Entity, ghost inActions: seq<Script>) returns (outcome: Outcome)
    requires inActions == ActionScripts(e.Actions)
    modifies s
    ensures s.Reliable ==>
              (outcome == Done <==>
                 AcceptsEntity(old(s.tables), e.Id, e.AreaId, StateContents(e.States),
                               old(ActionContents(e.Actions, inActions))))
    ensures outcome == Done ==>
              && e.Id !in old(s.tables.entities) && (e.AreaId.Some? ==> e.AreaId.value in Ids(s.tables.areas))
              && OwnedAdded(old(s.tables.states), s.tables.states, e.Id, StateContents(e.States))
              && OwnedAdded(old(s.tables.actions), s.tables.actions, e.Id, ActionContents(e.Actions, inActions))
              && s.tables == old(s.tables).(
                   entities := old(s.tables.entities)[e.Id := EntityRow(e.Payload, e.AreaId)],
                   states := s.tables.states, actions := s.tables.actions,
                   entityTags := old(s.tables.entityTags) + LinksOf(e.Id, e.Tags),
                   entityScripts := old(s.tables.entityScripts) + ScriptLinks(e.Id, e.Scripts),
                   entityMetrics := old(s.tables.entityMetrics) + MetricLinks(e.Id, e.Metrics))
  {
    hide OwnedAdded, StateContents, ActionScripts, AcceptsNames, AcceptsScripts;
    outcome := Statement(s.Reliable);
    if outcome != Done {
      return;
    }
    var inStates, contents := StateContents(e.States), ActionContents(e.Actions, inActions);
    if !AcceptsEntity(s.tables, e.Id, e.AreaId, inStates, contents) {
      return Failed;
    }
    var states := AddOwned(s.tables.states, e.Id, inStates);
    var actions := AddOwned(s.tables.actions, e.Id, contents);
    s.tables := s.tables.(
      entities := s.tables.entities[e.Id := EntityRow(e.Payload, e.AreaId)],
      states := states, actions := actions,
      entityTags := s.tables.entityTags + LinksOf(e.Id, e.Tags),
      entityScripts := s.tables.entityScripts + ScriptLinks(e.Id, e.Scripts),
      entityMetrics := s.tables.entityMetrics + MetricLinks(e.Id, e.Metrics));
    assert contents == ActionContents(e.Actions, inActions);
  }

  /** States, metrics and the entity itself. */
  method AddRows(s: Session<Tables>, e: Entity, ghost inActions: seq<Script>) returns (outcome: Outcome)
    requires inActions == ActionScripts(e.Actions)
    modifies s, e.States, e.Metrics
    ensures s.Reliable ==>
              (outcome == Done <==>
                 AcceptsEntity(old(s.tables), e.Id, e.AreaId, StateContents(e.States),
                               old(ActionContents(e.Actions, inActions))))
    ensures outcome == Done ==> RowsAdded(old(s.tables), s.tables, e, inActions)
    ensures outcome == Done ==>
              && s.tables.tags == old(s.tables.tags) && s.tables.scripts == old(s.tables.scripts)
              && s.tables.areas == old(s.tables.areas)
  {
    hide OwnedAdded, ActionScripts, ActionContents, StateContents, MetricsAdded, AcceptsNames, AcceptsScripts;
    ImportStates(e.States, e.Id);
    outcome := AddMetrics(s, e.Metrics);
    if outcome == Done {
      outcome := AddEntity(s, e, inActions);
    }
  }

  /** What has to hold before an import for the tables to accept everything in it. `areaId` and `id0`
      are the area id and the id of the area that the entity came with. */
  predicate Importable(t: Tables, e: Entity, areaId: Option<int>, id0: int) {
    && ' ' !in e.Id && e.Id !in t.entities
    && (forall r | r in t.states + t.actions :: r.owner != e.Id)
    && (forall i, j | 0 <= i < j < |e.States| :: e.States[i].Name != e.States[j].Name)
    && (forall i, j | 0 <= i < j < |e.Actions| :: e.Actions[i].Name != e.Actions[j].Name)
    && (forall a | a in e.Actions && a.Script == null && a.ScriptId.Some? :: a.ScriptId.value in Ids(t.scripts))
    && AcceptsArea(t, e, id0)
    && ((e.Area != null && e.Area.Name in NamesOf(t.areas)) || areaId == None || areaId.value in Ids(t.areas))
  }

  method ImportBody(s: Session<Tables>, e: Entity, ghost inActions: seq<Script>) returns (outcome: Outcome)
    requires ValidTables(s.tables) && inActions == ActionScripts(e.Actions)
    modifies s, e, AreaOf(e), e.Tags, e.Scripts, e.Actions, inActions, e.States, e.Metrics
    ensures s.Reliable && old(Importable(s.tables, e, e.AreaId, AreaId0(e))) ==> outcome == Done
    ensures outcome == Done ==>
              ValidTables(s.tables) && EntityImported(old(s.tables), s.tables, e, inActions, old(e.AreaId))
  {
    hide TagsHaveIds, ScriptsHaveIds, Resolved, Keyed, TagNames, ScriptNames, ActionScripts;
    hide MetricsAdded, OwnedAdded, ActionContents, StateContents, LinksOf, ScriptLinks, MetricLinks;
    hide AcceptsEntity, Importable, AcceptsArea, AreaId0;
    ghost var before, areaId, id0 := s.tables, e.AreaId, AreaId0(e);
    ImportableArea(before, e, areaId, id0);
    outcome := ImportArea(s, e);
    if outcome != Done {
      return;
    }
    AreasStay(before, s.tables, e, areaId);
    outcome := ResolveReferences(s, e, inActions);
    if outcome != Done {
      return;
    }
    if Importable(before, e, areaId, id0) {
      ImportableIsAccepted(before, s.tables, e, inActions, areaId, id0);
    }
    outcome := AddRows(s, e, inActions);
  }

  lemma ImportableArea(t: Tables, e: Entity, areaId: Option<int>, id0: int)
    ensures Importable(t, e, areaId, id0) ==> AcceptsArea(t, e, id0)
  {
  }

  lemma IdsStay(rows: seq<Named>, rows': seq<Named>, names: set<string>, id: int)
    requires Resolved(rows, rows', names) && id in Ids(rows)
    ensures id in Ids(rows')
  {
    var i :| 0 <= i < |rows| && Ids(rows)[i] == id;
    assert Ids(rows')[i] == id;
  }

  lemma IdOfRow(rows: seq<Named>, r: Named)
    requires r in rows
    ensures r.id in Ids(rows)
  {
    var i :| 0 <= i < |rows| && rows[i] == r;
    assert Ids(rows)[i] == r.id;
  }

  /** Once its references are resolved, an importable entity is accepted. */
  lemma ImportableIsAccepted(t: Tables, u: Tables, e: Entity, inActions: seq<Script>, areaId: Option<int>, id0: int)
    requires inActions == ActionScripts(e.Actions) && Importable(t, e, areaId, id0)
    requires ReferencesResolved(t, u, e, inActions) && AreaImported(t, u, e, areaId)
    requires u.entities == t.entities && u.states == t.states && u.actions == t.actions
    ensures AcceptsEntity(u, e.Id, e.AreaId, StateContents(e.States), ActionContents(e.Actions, inActions))
  {
    hide Resolved, TagNames, ScriptNames, TagsHaveIds, ActionScripts;
    var contents := ActionContents(e.Actions, inActions);
    forall c | c in contents && c.script.Some? ensures c.script.value in Ids(u.scripts) {
      var i :| 0 <= i < |contents| && contents[i] == c;
      ActionScriptKnown(t, u, e, inActions, i);
    }
    assert AcceptsNames(u.states, e.Id, StateContents(e.States));
    assert AcceptsNames(u.actions, e.Id, contents);
    if e.Area != null && e.Area.Name in NamesOf(t.areas) {
      IdOfRow(u.areas, Named(e.Area.Id, e.Area.Name));
    } else if areaId.Some? {
      IdsStay(t.areas, u.areas, AreaNames(e), areaId.value);
    }
  }

  lemma ActionScriptKnown(t: Tables, u: Tables, e: Entity, inActions: seq<Script>, i: nat)
    requires inActions == ActionScripts(e.Actions) && ReferencesResolved(t, u, e, inActions) && i < |e.Actions|
    requires var a := e.Actions[i];
             a.Script == null && a.ScriptId.Some? ==> a.ScriptId.value in Ids(t.scripts)
    ensures var c := ActionContents(e.Actions, inActions)[i];
            && (e.Actions[i].Script != null ==>
                  c.script.Some? && Named(c.script.value, e.Actions[i].Script.Name) in u.scripts)
            && (c.script.Some? ==> c.script.value in Ids(u.scripts))
  {
    hide TagsHaveIds, TagNames, ScriptNames, Resolved, ActionScripts, ActionContents;
    ContentOf(e.Actions, inActions, i);
    var names := ScriptNames(e.Scripts) + ScriptNames(inActions);
    RowsStay(t.scripts, u.scripts, names);
    var x := e.Actions[i].Script;
    ActionListed(e.Actions, i);
    if x != null {
      IdOfRow(u.scripts, Named(x.Id, x.Name));
    } else if e.Actions[i].ScriptId.Some? {
      IdsStay(t.scripts, u.scripts, names, e.Actions[i].ScriptId.value);
    }
  }

  lemma ContentOf(actions: seq<Action>, inActions: seq<Script>, i: nat)
    requires inActions == ActionScripts(actions) && i < |actions|
    ensures |ActionContents(actions, inActions)| == |actions|
    ensures var c, a := ActionContents(actions, inActions)[i], actions[i];
            && c.name == a.Name && c.data == a.Data
            && c.script == if a.Script != null && a.Script.Id != 0 then Some(a.Script.Id) else a.ScriptId
  {
    hide ActionScripts;
  }

  method Import(s: Session<Tables>, e: Entity, ghost inActions: seq<Script>, commits: bool) returns (failed: bool)
    requires ValidTables(s.tables) && inActions == ActionScripts(e.Actions)
    modifies s, e, AreaOf(e), e.Tags, e.Scripts, e.Actions, inActions, e.States, e.Metrics
    ensures failed || !commits ==> s.tables == old(s.tables)
    ensures s.Reliable && old(Importable(s.tables, e, e.AreaId, AreaId0(e))) ==> !failed
    ensures !failed && commits ==>
              ValidTables(s.tables) && EntityImported(old(s.tables), s.tables, e, inActions, old(e.AreaId))
  {
    hide EntityImported, Keyed, ActionScripts, Importable;
    var before := s.tables;
    var outcome := ImportBody(s, e, inActions);
    failed := s.Finish(before, outcome, commits);
  }

  // ---------- what is stored of an entity ----------

  /** Each action has one new row, in order: it has the action's name and data, the id of the row that
      has the name of the action's script, and without a script the script id the action came with. */
  lemma ActionRows(t: Tables, u: Tables, e: Entity, inActions: seq<Script>, areaId: Option<int>, i: nat)
    requires inActions == ActionScripts(e.Actions) && EntityImported(t, u, e, inActions, areaId) && i < |e.Actions|
    ensures |u.actions| == |t.actions| + |e.Actions|
    ensures var row, a := u.actions[|t.actions| + i], e.Actions[i];
            && row.owner == e.Id && row.content.name == a.Name && row.content.data == a.Data
            && (a.Script != null ==>
                  row.content.script.Some? && Named(row.content.script.value, a.Script.Name) in u.scripts)
            && (a.Script == null ==> row.content.script == a.ScriptId)
  {
    hide Resolved, AreaImported, MetricsAdded, ActionScripts, ActionContents, StateContents;
    ContentOf(e.Actions, inActions, i);
    ActionListed(e.Actions, i);
    var x := e.Actions[i].Script;
    if x != null {
      RowsStay(t.scripts, u.scripts, ScriptNames(e.Scripts) + ScriptNames(inActions));
      assert Named(x.Id, x.Name) in u.scripts;
    }
  }

  /** Two actions are stored with the same script exactly when their scripts have the same name. */
  lemma ActionRowsShare(t: Tables, u: Tables, e: Entity, inActions: seq<Script>, areaId: Option<int>, i: nat, j: nat)
    requires inActions == ActionScripts(e.Actions) && EntityImported(t, u, e, inActions, areaId)
    requires i < |e.Actions| && j < |e.Actions| && e.Actions[i].Script != null && e.Actions[j].Script != null
    ensures |u.actions| == |t.actions| + |e.Actions|
    ensures u.actions[|t.actions| + i].content.script == u.actions[|t.actions| + j].content.script
            <==> e.Actions[i].Script.Name == e.Actions[j].Script.Name
  {
    hide EntityImported, ActionScripts;
    ActionRows(t, u, e, inActions, areaId, i);
    ActionRows(t, u, e, inActions, areaId, j);
    ScriptRowsKeyed(t, u, e, inActions, areaId);
    var a, b := u.actions[|t.actions| + i].content.script.value, u.actions[|t.actions| + j].content.script.value;
    OneRowEach(u.scripts, Named(a, e.Actions[i].Script.Name), Named(b, e.Actions[j].Script.Name));
  }

  lemma ScriptRowsKeyed(t: Tables, u: Tables, e: Entity, inActions: seq<Script>, areaId: Option<int>)
    requires inActions == ActionScripts(e.Actions) && EntityImported(t, u, e, inActions, areaId)
    ensures Keyed(u.scripts)
  {
    hide Resolved, AreaImported, RowsAdded, ActionScripts, TagNames, ScriptNames;
    RowsStay(t.scripts, u.scripts, ScriptNames(e.Scripts) + ScriptNames(inActions));
  }

  /** Each state has one new row, in order. */
  lemma StateRows(t: Tables, u: Tables, e: Entity, inActions: seq<Script>, areaId: Option<int>, i: nat)
    requires inActions == ActionScripts(e.Actions) && EntityImported(t, u, e, inActions, areaId) && i < |e.States|
    ensures |u.states| == |t.states| + |e.States|
    ensures var row, x := u.states[|t.states| + i], e.States[i];
            row.owner == e.Id && row.content.name == x.Name && row.content.data == x.Data
  {
    hide Resolved, AreaImported, MetricsAdded, ActionScripts, ActionContents;
  }

  /** The new links are those from the entity to its tags, its scripts and its metrics. */
  lemma LinksAre(t: Tables, u: Tables, e: Entity, inActions: seq<Script>, areaId: Option<int>, owner: string, id: int)
    requires inActions == ActionScripts(e.Actions) && EntityImported(t, u, e, inActions, areaId)
    ensures (owner, id) in u.entityTags <==>
              (owner, id) in t.entityTags || (owner == e.Id && exists x | x in e.Tags :: x.Id == id)
    ensures (owner, id) in u.entityScripts <==>
              (owner, id) in t.entityScripts || (owner == e.Id && exists x | x in e.Scripts :: x.Id == id)
    ensures (owner, id) in u.entityMetrics <==>
              (owner, id) in t.entityMetrics || (owner == e.Id && exists x | x in e.Metrics :: x.Id == id)
  {
    hide Resolved, AreaImported, ReferencesResolved, MetricsAdded, ActionScripts, ActionContents, OwnedAdded;
  }

  /** A saved variable is linked to its tags and to nothing else; other variables keep their links. */
  lemma VariableLinksAre(t: Tables, u: Tables, v: Variable, name: string, id: int)
    requires VariableSaved(t, u, v)
    ensures (name, id) in u.variableTags <==>
              if name == v.Name then exists x | x in v.Tags :: x.Id == id else (name, id) in t.variableTags
  {
    hide Resolved;
  }

  lemma AreasStay(t: Tables, u: Tables, e: Entity, areaId: Option<int>)
    requires AreaImported(t, u, e, areaId)
    ensures Keyed(u.areas)
  {
  }

  // ---------- references with the same name ----------

  /** After an import, tags share an id exactly when they have the same name, and so do scripts,
      whether they are in the list or on an action. */
  lemma SharedIds(t: Tables, u: Tables, e: Entity, inActions: seq<Script>, areaId: Option<int>)
    requires inActions == ActionScripts(e.Actions) && EntityImported(t, u, e, inActions, areaId)
    ensures forall a, b | a in e.Tags && b in e.Tags :: a.Id == b.Id <==> a.Name == b.Name
    ensures var scripts := e.Scripts + inActions;
            forall x, y | x in scripts && y in scripts :: x.Id == y.Id <==> x.Name == y.Name
  {
    hide Resolved, AreaImported, MetricsAdded, OwnedAdded, ActionScripts, ActionContents, StateContents;
    RowsStay(t.tags, u.tags, TagNames(e.Tags));
    RowsStay(t.scripts, u.scripts, ScriptNames(e.Scripts) + ScriptNames(inActions));
    forall a, b | a in e.Tags && b in e.Tags ensures a.Id == b.Id <==> a.Name == b.Name {
      OneRowEach(u.tags, Named(a.Id, a.Name), Named(b.Id, b.Name));
    }
    var scripts := e.Scripts + inActions;
    forall x, y | x in scripts && y in scripts ensures x.Id == y.Id <==> x.Name == y.Name {
      OneRowEach(u.scripts, Named(x.Id, x.Name), Named(y.Id, y.Name));
    }
  }

  /** The same for the tags of a saved variable. */
  lemma SharedTagIds(t: Tables, u: Tables, v: Variable)
    requires VariableSaved(t, u, v)
    ensures forall a, b | a in v.Tags && b in v.Tags :: a.Id == b.Id <==> a.Name == b.Name
  {
    hide Resolved;
    RowsStay(t.tags, u.tags, TagNames(v.Tags));
    forall a, b | a in v.Tags && b in v.Tags ensures a.Id == b.Id <==> a.Name == b.Name {
      OneRowEach(u.tags, Named(a.Id, a.Name), Named(b.Id, b.Name));
    }
  }

  lemma OneRowEach(rows: seq<Named>, a: Named, b: Named)
    requires Keyed(rows) && a in rows && b in rows
    ensures a.id == b.id <==> a.name == b.name
  {
  }
}
