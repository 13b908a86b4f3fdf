/** UpdateAccessList: a diff of granted and revoked levels applied to a role's own rows. */
module RoleUpdate {
  import opened Common
  import opened Transactions
  import opened Roles

  type Diff = map<string, map<string, bool>>

  predicate Mentions(diff: Diff, pack: string, level: string) {
    pack in diff && level in diff[pack]
  }

  predicate Grants(diff: Diff, pack: string, level: string) {
    Mentions(diff, pack, level) && diff[pack][level]
  }

  // ---------- rows ----------

  /** DELETE ... WHERE role_name, package_name and level_name match. */
  function Without(perms: seq<Permission>, name: string, gone: set<(string, string)>): seq<Permission> {
    if perms == [] then []
    else
      var last := perms[|perms| - 1];
      Without(perms[..|perms| - 1], name, gone) +
      if last.role == name && (last.pack, last.level) in gone then [] else [last]
  }

  /** The rows of all other roles. */
  function Others(perms: seq<Permission>, name: string): seq<Permission> {
    if perms == [] then []
    else
      var last := perms[|perms| - 1];
      Others(perms[..|perms| - 1], name) + if last.role == name then [] else [last]
  }

  lemma {:induction false} WithoutMember(perms: seq<Permission>, name: string, gone: set<(string, string)>,
                                         p: Permission)
    ensures p in Without(perms, name, gone) <==> p in perms && !(p.role == name && (p.pack, p.level) in gone)
  {
    if perms != [] {
      WithoutMember(perms[..|perms| - 1], name, gone, p);
      assert perms == perms[..|perms| - 1] + [perms[|perms| - 1]];
    }
  }

  lemma {:induction false} WithoutTwice(perms: seq<Permission>, name: string,
                                        a: set<(string, string)>, b: set<(string, string)>)
    ensures Without(Without(perms, name, a), name, b) == Without(perms, name, a + b)
  {
    if perms != [] {
      var init, last := perms[..|perms| - 1], perms[|perms| - 1];
      WithoutTwice(init, name, a, b);
      var kept := Without(init, name, a);
      assert (kept + [last])[..|kept + [last]| - 1] == kept == kept + [];
      assert Without(init, name, a + b) + [] == Without(init, name, a + b);
    }
  }

  lemma {:induction false} WithoutNone(perms: seq<Permission>, name: string)
    ensures Without(perms, name, {}) == perms
  {
    if perms != [] { WithoutNone(perms[..|perms| - 1], name); }
  }

  lemma {:induction false} WithoutKeepsOthers(perms: seq<Permission>, name: string, gone: set<(string, string)>)
    ensures Others(Without(perms, name, gone), name) == Others(perms, name)
  {
    if perms != [] {
      var init, last := perms[..|perms| - 1], perms[|perms| - 1];
      WithoutKeepsOthers(init, name, gone);
      var kept := Without(init, name, gone);
      assert (kept + [last])[..|kept + [last]| - 1] == kept == kept + [];
      assert Others(init, name) + [] == Others(init, name);
    }
  }

  function Ids(perms: seq<Permission>): seq<int> {
    seq(|perms|, i requires 0 <= i < |perms| => perms[i].id)
  }

  // ---------- the update ----------

  /** The role's own rows after the update; the rows of all other roles are the same. */
  ghost predicate Updated(t: Tables, u: Tables, name: string, diff: Diff) {
    && u.roles == t.roles
    && Others(u.perms, name) == Others(t.perms, name)
    && forall pack, level :: Owns(u, name, pack, level) <==>
         if Grants(diff, pack, level) then Owns(t, name, pack, level) || !Holds(t, name, pack, level)
         else Owns(t, name, pack, level) && !Mentions(diff, pack, level)
  }

  /** Permissions.Add: the table refuses an unknown role and a repeated (role, package, level). */
  method Add(s: Session<Tables>, name: string, pack: string, level: string) returns (outcome: Outcome)
    modifies s
    ensures InIdOrder(old(s.tables.perms)) ==> InIdOrder(s.tables.perms)
    ensures s.Reliable ==>
              (outcome == Done <==> name in old(s.tables.roles) && !old(Owns(s.tables, name, pack, level)))
    ensures outcome == Done ==>
              exists id :: id !in old(Ids(s.tables.perms)) &&
                s.tables == old(s.tables).(perms := old(s.tables.perms) + [Permission(id, name, pack, level)])
    ensures outcome != Done ==> s.tables == old(s.tables)
  {
    if name !in s.tables.roles || Owns(s.tables, name, pack, level) {
      return Failed;
    }
    var luck := Statement(s.Reliable);
    if luck != Done {
      return luck;
    }
    ghost var g := FreshId(Ids(s.tables.perms));
    var id: int :| id !in Ids(s.tables.perms) && forall used | used in Ids(s.tables.perms) :: used < id;
    forall i | 0 <= i < |s.tables.perms| ensures s.tables.perms[i].id < id {
      assert Ids(s.tables.perms)[i] in Ids(s.tables.perms);
    }
    s.tables := s.tables.(perms := s.tables.perms + [Permission(id, name, pack, level)]);
    return Done;
  }

  method Delete(s: Session<Tables>, name: string, pack: string, levels: seq<string>) returns (outcome: Outcome)
    modifies s
    ensures outcome == Done ==>
              s.tables == old(s.tables).(perms := Without(old(s.tables.perms), name, set l | l in levels :: (pack, l)))
    ensures outcome != Done ==> s.tables == old(s.tables)
    ensures s.Reliable ==> outcome == Done
  {
    outcome := Statement(s.Reliable);
    if outcome == Done {
      s.tables := s.tables.(perms := Without(s.tables.perms, name, set l | l in levels :: (pack, l)));
    }
  }

  /** Pairs of the diff that were visited, in any order. */
  predicate Planned(list: AccessList, diff: Diff, done: set<(string, string)>,
                    adds: seq<(string, string)>, gone: set<(string, string)>)
  {
    && (forall pl | pl in adds :: pl in done && Grants(diff, pl.0, pl.1) && !Lists(list, pl.0, pl.1))
    && (forall pl | pl in gone :: pl in done && !Grants(diff, pl.0, pl.1) && Lists(list, pl.0, pl.1))
    && (forall pl | pl in done :: Mentions(diff, pl.0, pl.1))
    && (forall pl | pl in done && Grants(diff, pl.0, pl.1) && !Lists(list, pl.0, pl.1) :: pl in adds)
    && (forall pl | pl in done && !Grants(diff, pl.0, pl.1) && Lists(list, pl.0, pl.1) :: pl in gone)
  }

  predicate NoPairTwice(adds: seq<(string, string)>) {
    forall i, j | 0 <= i < j < |adds| :: adds[i] != adds[j]
  }

  lemma NoPairs()
    ensures NoPairTwice([])
  {
  }

  lemma NewPair(list: AccessList, diff: Diff, done: set<(string, string)>, adds: seq<(string, string)>,
                gone: set<(string, string)>, pl: (string, string))
    requires Planned(list, diff, done, adds, gone) && pl !in done && NoPairTwice(adds)
    ensures NoPairTwice(adds + [pl])
  {
  }

  lemma NothingPlanned(list: AccessList, diff: Diff)
    ensures Planned(list, diff, {}, [], {})
  {
  }

  /** Visiting one more pair: it joins the additions, the deletions or neither. */
  lemma Step(list: AccessList, diff: Diff, done: set<(string, string)>, adds: seq<(string, string)>,
             gone: set<(string, string)>, pack: string, level: string)
    requires Planned(list, diff, done, adds, gone) && Mentions(diff, pack, level)
    ensures var pl := (pack, level); var exist := Lists(list, pack, level);
            if diff[pack][level] && !exist then Planned(list, diff, done + {pl}, adds + [pl], gone)
            else if !diff[pack][level] && exist then Planned(list, diff, done + {pl}, adds, gone + {pl})
            else Planned(list, diff, done + {pl}, adds, gone)
  {
  }

  method UpdateAccessList(s: Session<Tables>, name: string, diff: Diff, commits: bool) returns (failed: bool)
    requires AcyclicFrom(s.tables.roles, name)
    modifies s
    ensures failed || !commits ==> s.tables == old(s.tables)
    ensures old(name !in s.tables.roles) ==> failed
    ensures s.Reliable && old(name in s.tables.roles) ==> !failed
    ensures !failed && commits ==> Updated(old(s.tables), s.tables, name, diff)
  {
    if name !in s.tables.roles {
      return true;
    }
    var before := s.tables;
    var accessList := GetAccessList(before, name);
    var outcome := UpdateBody(s, name, diff, accessList);
    failed := s.Finish(before, outcome, commits);
  }

  /** The transaction body, for every visiting order of the two maps. */
  method UpdateBody(s: Session<Tables>, name: string, diff: Diff, accessList: AccessList) returns (outcome: Outcome)
    requires name in s.tables.roles
    requires forall pack, level :: Lists(accessList, pack, level) <==> Holds(s.tables, name, pack, level)
    modifies s
    ensures s.Reliable ==> outcome == Done
    ensures outcome == Done ==> Updated(old(s.tables), s.tables, name, diff)
  {
    hide Planned, Without, Updated, Holds, Owns, NoPairTwice;
    ghost var t := s.tables;
    var addPerms: seq<(string, string)> := [];
    ghost var done: set<(string, string)>, gone: set<(string, string)> := {}, {};
    var packs := diff.Keys;
    WithoutNone(t.perms, name);
    NothingPlanned(accessList, diff);
    assert NoPairTwice([]) by { NoPairs(); }
    while packs != {}
      invariant packs <= diff.Keys
      invariant Planned(accessList, diff, done, addPerms, gone) && NoPairTwice(addPerms)
      invariant s.tables == t.(perms := Without(t.perms, name, gone))
      invariant forall pl :: pl in done <==> Mentions(diff, pl.0, pl.1) && pl.0 !in packs
    {
      var packName :| packName in packs;
      packs := packs - {packName};
      var pack := diff[packName];
      var levels := pack.Keys;
      while levels != {}
        invariant levels <= pack.Keys
        invariant Planned(accessList, diff, done, addPerms, gone) && NoPairTwice(addPerms)
        invariant s.tables == t.(perms := Without(t.perms, name, gone))
        invariant forall pl :: pl in done <==>
                    Mentions(diff, pl.0, pl.1) && pl.0 !in packs && (pl.0 == packName ==> pl.1 !in levels)
      {
        var levelName :| levelName in levels;
        levels := levels - {levelName};
        var dir := pack[levelName];
        var exist := Exists(if packName in accessList then accessList[packName] else [], levelName);
        ghost var before := (addPerms, gone);
        var delPerms: seq<string> := [];
        NewPair(accessList, diff, done, addPerms, gone, (packName, levelName));
        if dir && !exist {
          addPerms := addPerms + [(packName, levelName)];
        } else if !dir && exist {
          delPerms := delPerms + [levelName];
        }
        if |delPerms| > 0 {
          outcome := Delete(s, name, packName, delPerms);
          if outcome != Done {
            return;
          }
          assert (set l | l in delPerms :: (packName, l)) == {(packName, levelName)};
          WithoutTwice(t.perms, name, gone, {(packName, levelName)});
          gone := gone + {(packName, levelName)};
          delPerms := [];
        }
        Step(accessList, diff, done, before.0, before.1, packName, levelName);
        done := done + {(packName, levelName)};
      }
    }
    ghost var rest := s.tables.perms;
    for i := 0 to |addPerms|
      invariant s.tables.roles == t.roles
      invariant Grew(rest, s.tables.perms, name, addPerms[..i])
    {
      NotYetOwned(t, s.tables, name, diff, accessList, done, addPerms, gone, i);
      outcome := Add(s, name, addPerms[i].0, addPerms[i].1);
      if outcome != Done {
        return;
      }
      assert addPerms[..i + 1] == addPerms[..i] + [addPerms[i]];
    }
    assert addPerms[..|addPerms|] == addPerms;
    UpdatedFrom(t, s.tables, name, diff, accessList, done, addPerms, gone);
    outcome := Done;
  }

  /** One new row for this role per pair, after the rows that were there. */
  predicate Grew(perms: seq<Permission>, perms': seq<Permission>, name: string, adds: seq<(string, string)>) {
    && perms <= perms' && |perms'| == |perms| + |adds|
    && forall i | 0 <= i < |adds| :: IsRow(perms'[|perms| + i], name, adds[i])
  }

  predicate IsRow(p: Permission, name: string, pl: (string, string)) {
    p.role == name && p.pack == pl.0 && p.level == pl.1
  }

  lemma {:induction false} OthersGrew(perms: seq<Permission>, perms': seq<Permission>, name: string,
                                      adds: seq<(string, string)>)
    requires Grew(perms, perms', name, adds)
    ensures Others(perms', name) == Others(perms, name)
  {
    if adds == [] {
      assert perms' == perms;
    } else {
      assert IsRow(perms'[|perms| + (|adds| - 1)], name, adds[|adds| - 1]);
      assert perms'[|perms'| - 1] == perms'[|perms| + (|adds| - 1)];
      assert Others(perms', name) == Others(perms'[..|perms'| - 1], name) + [];
      OthersGrew(perms, perms'[..|perms'| - 1], name, adds[..|adds| - 1]);
    }
  }

  lemma GrewMember(perms: seq<Permission>, perms': seq<Permission>, name: string, adds: seq<(string, string)>,
                   pack: string, level: string)
    requires Grew(perms, perms', name, adds)
    ensures (exists p | p in perms' :: p.pack == pack && p.level == level && p.role == name)
            <==> (pack, level) in adds || exists p | p in perms :: p.pack == pack && p.level == level && p.role == name
  {
    if (pack, level) in adds {
      var i :| 0 <= i < |adds| && adds[i] == (pack, level);
      assert perms'[|perms| + i] in perms';
    }
    if p :| p in perms' && p.pack == pack && p.level == level && p.role == name {
      var i :| 0 <= i < |perms'| && perms'[i] == p;
      if i >= |perms| {
        var m := i - |perms|;
        assert perms'[|perms| + m] == p;
        assert IsRow(p, name, adds[m]);
      } else {
        assert perms[i] == p;
      }
    }
    if p :| p in perms && p.pack == pack && p.level == level && p.role == name {
      assert p in perms';
    }
  }

  /** A planned level is not owned until its own turn comes. */
  lemma NotYetOwned(t: Tables, u: Tables, name: string, diff: Diff, list: AccessList,
                    done: set<(string, string)>, adds: seq<(string, string)>, gone: set<(string, string)>, i: nat)
    requires name in t.roles && Planned(list, diff, done, adds, gone) && NoPairTwice(adds) && i < |adds|
    requires Grew(Without(t.perms, name, gone), u.perms, name, adds[..i])
    requires forall pack, level :: Lists(list, pack, level) <==> Holds(t, name, pack, level)
    ensures !Owns(u, name, adds[i].0, adds[i].1)
  {
    hide Grew, Holds, Lists;
    var (pack, level) := adds[i];
    GrewMember(Without(t.perms, name, gone), u.perms, name, adds[..i], pack, level);
    KeptMember(t, name, gone, pack, level);
    assert adds[i] == (pack, level) && adds[i] in adds;
    if Owns(t, name, pack, level) {
      OwnedIsHeld(t, name, pack, level);
    }
  }

  lemma OwnedIsHeld(t: Tables, name: string, pack: string, level: string)
    requires name in t.roles && Owns(t, name, pack, level)
    ensures Holds(t, name, pack, level)
  {
    assert Nth(t.roles, name, 0) == Some(name);
  }

  lemma UpdatedFrom(t: Tables, u: Tables, name: string, diff: Diff, list: AccessList,
                    done: set<(string, string)>, adds: seq<(string, string)>, gone: set<(string, string)>)
    requires name in t.roles && u.roles == t.roles
    requires Planned(list, diff, done, adds, gone) && forall pl :: pl in done <==> Mentions(diff, pl.0, pl.1)
    requires Grew(Without(t.perms, name, gone), u.perms, name, adds)
    requires forall pack, level :: Lists(list, pack, level) <==> Holds(t, name, pack, level)
    ensures Updated(t, u, name, diff)
  {
    var kept := Without(t.perms, name, gone);
    WithoutKeepsOthers(t.perms, name, gone);
    OthersGrew(kept, u.perms, name, adds);
    forall pack, level
      ensures Owns(u, name, pack, level) <==>
        if Grants(diff, pack, level) then Owns(t, name, pack, level) || !Holds(t, name, pack, level)
        else Owns(t, name, pack, level) && !Mentions(diff, pack, level)
    {
      GrewMember(kept, u.perms, name, adds, pack, level);
      KeptMember(t, name, gone, pack, level);
      if Owns(t, name, pack, level) {
        OwnedIsHeld(t, name, pack, level);
      }
      assert (pack, level) in done <==> Mentions(diff, pack, level);
      assert (pack, level) in adds <==> Grants(diff, pack, level) && !Lists(list, pack, level);
      assert (pack, level) in gone <==>
          Mentions(diff, pack, level) && !Grants(diff, pack, level) && Lists(list, pack, level);
    }
  }

  lemma KeptMember(t: Tables, name: string, gone: set<(string, string)>, pack: string, level: string)
    ensures (exists p | p in Without(t.perms, name, gone) :: p.pack == pack && p.level == level && p.role == name)
            <==> Owns(t, name, pack, level) && (pack, level) !in gone
  {
    forall p
      ensures p in Without(t.perms, name, gone) <==> p in t.perms && !(p.role == name && (p.pack, p.level) in gone)
    {
      WithoutMember(t.perms, name, gone, p);
    }
  }

  // ---------- what the caller sees ----------

  lemma {:induction false} OthersMember(perms: seq<Permission>, name: string, p: Permission)
    ensures p in Others(perms, name) <==> p in perms && p.role != name
  {
    if perms != [] {
      OthersMember(perms[..|perms| - 1], name, p);
      assert perms == perms[..|perms| - 1] + [perms[|perms| - 1]];
    }
  }

  /** After the update the recomputed access list holds a level exactly when the diff grants it, or
      does not mention it and it was held before, or revokes it while a proper ancestor holds it. */
  lemma AccessAfterUpdate(t: Tables, u: Tables, name: string, diff: Diff, pack: string, level: string)
    requires name in t.roles && AcyclicFrom(t.roles, name) && Updated(t, u, name, diff)
    ensures Holds(u, name, pack, level) <==>
              if Grants(diff, pack, level) then true
              else if Mentions(diff, pack, level) then HoldsByAncestor(t, name, pack, level)
              else Holds(t, name, pack, level)
  {
    OwnOrAncestor(t, name, pack, level);
    OwnOrAncestor(u, name, pack, level);
    AncestorsUntouched(t, u, name, pack, level);
  }

  lemma OwnOrAncestor(t: Tables, name: string, pack: string, level: string)
    requires name in t.roles
    ensures Holds(t, name, pack, level) <==> Owns(t, name, pack, level) || HoldsByAncestor(t, name, pack, level)
  {
    assert Nth(t.roles, name, 0) == Some(name);
    if p :| p in t.perms && p.pack == pack && p.level == level && IsAncestor(t.roles, name, p.role) {
      var n: nat :| Nth(t.roles, name, n) == Some(p.role);
      assert n > 0 ==> IsProperAncestor(t.roles, name, p.role);
    }
    if p :| p in t.perms && p.pack == pack && p.level == level && IsProperAncestor(t.roles, name, p.role) {
      var n: nat :| n > 0 && Nth(t.roles, name, n) == Some(p.role);
      assert IsAncestor(t.roles, name, p.role);
    }
  }

  lemma AncestorsUntouched(t: Tables, u: Tables, name: string, pack: string, level: string)
    requires name in t.roles && AcyclicFrom(t.roles, name) && u.roles == t.roles
    requires Others(u.perms, name) == Others(t.perms, name)
    ensures HoldsByAncestor(u, name, pack, level) <==> HoldsByAncestor(t, name, pack, level)
  {
    forall p: Permission | IsProperAncestor(t.roles, name, p.role) ensures p in u.perms <==> p in t.perms {
      var n: nat :| n > 0 && Nth(t.roles, name, n) == Some(p.role);
      assert !RepeatsAt(t.roles, name, 0, n);
      OthersMember(t.perms, name, p);
      OthersMember(u.perms, name, p);
    }
  }
}
