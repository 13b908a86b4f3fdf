/** Role inheritance: the recursive ancestor query, the access list built from it, and the diff that
    UpdateAccessList applies to the role's own permission rows. */
module Roles {
  import opened Common
  import opened Transactions

  datatype Permission = Permission(id: int, role: string, pack: string, level: string)

  /** Role names with their parents, and permission rows in id order. */
  datatype Tables = Tables(roles: map<string, Option<string>>, perms: seq<Permission>)

  // ---------- the recursive query ----------

  /** The one row of the query's working table after n rounds: the n-th ancestor, while there is one. */
  function Nth(roles: map<string, Option<string>>, name: string, n: nat): Option<string> {
    if n == 0 then (if name in roles then Some(name) else None)
    else
      match Nth(roles, name, n - 1)
      case None => None
      case Some(r) => if roles[r].Some? && roles[r].value in roles then roles[r] else None
  }

  /** The query stops at the first round without a row; rows carry their level, so a cycle never stops. */
  ghost predicate QueryEnds(roles: map<string, Option<string>>, name: string) {
    exists n :: Nth(roles, name, n) == None
  }

  predicate RepeatsAt(roles: map<string, Option<string>>, name: string, i: nat, j: nat) {
    i < j && Nth(roles, name, i).Some? && Nth(roles, name, i) == Nth(roles, name, j)
  }

  /** No role on the chain is its own proper ancestor. */
  ghost predicate AcyclicFrom(roles: map<string, Option<string>>, name: string) {
    forall i: nat, j: nat :: !RepeatsAt(roles, name, i, j)
  }

  ghost predicate IsAncestor(roles: map<string, Option<string>>, name: string, a: string) {
    exists n: nat :: Nth(roles, name, n) == Some(a)
  }

  ghost predicate IsProperAncestor(roles: map<string, Option<string>>, name: string, a: string) {
    exists n: nat :: n > 0 && Nth(roles, name, n) == Some(a)
  }

  lemma {:induction false} NthInRoles(roles: map<string, Option<string>>, name: string, n: nat)
    ensures Nth(roles, name, n).Some? ==> Nth(roles, name, n).value in roles
  {
    if n > 0 { NthInRoles(roles, name, n - 1); }
  }

  lemma {:induction false} NthNoneStays(roles: map<string, Option<string>>, name: string, n: nat, m: nat)
    requires Nth(roles, name, n) == None && n <= m
    ensures Nth(roles, name, m) == None
  {
    if n < m { NthNoneStays(roles, name, n, m - 1); }
  }

  /** From a repetition on the chain goes round for ever. */
  lemma {:induction false} Period(roles: map<string, Option<string>>, name: string, i: nat, j: nat, k: nat)
    requires RepeatsAt(roles, name, i, j)
    ensures Nth(roles, name, i + k) == Nth(roles, name, j + k)
  {
    if k > 0 { Period(roles, name, i, j, k - 1); }
  }

  lemma {:induction false} NeverEnds(roles: map<string, Option<string>>, name: string, i: nat, j: nat, n: nat)
    requires RepeatsAt(roles, name, i, j)
    ensures Nth(roles, name, n).Some?
    decreases n
  {
    if n >= j {
      NeverEnds(roles, name, i, j, n - (j - i));
      Period(roles, name, i, j, n - j);
    } else if Nth(roles, name, n) == None {
      NthNoneStays(roles, name, n, j);
    }
  }

  /** The ancestor recursion ends exactly when no role repeats on the chain, and then within as many
      rounds as there are roles. */
  lemma QueryEndsExactly(roles: map<string, Option<string>>, name: string)
    ensures QueryEnds(roles, name) <==> AcyclicFrom(roles, name)
    ensures AcyclicFrom(roles, name) ==> Nth(roles, name, |roles|) == None
  {
    if QueryEnds(roles, name) {
      var n :| Nth(roles, name, n) == None;
      forall i: nat, j: nat ensures !RepeatsAt(roles, name, i, j) {
        if RepeatsAt(roles, name, i, j) {
          NeverEnds(roles, name, i, j, n);
        }
      }
    }
    if AcyclicFrom(roles, name) && Nth(roles, name, |roles|).Some? {
      var chain := Chain(roles, name, |roles| + 1);
      ChainFits(roles, name, |roles| + 1);
      assert false;
    }
  }

  /** A role that is its own parent: the query never ends. */
  lemma OwnParentNeverEnds(name: string)
    ensures !QueryEnds(map[name := Some(name)], name)
  {
    var roles := map[name := Some(name)];
    assert Nth(roles, name, 1) == Some(name);
    assert RepeatsAt(roles, name, 0, 1);
    QueryEndsExactly(roles, name);
  }

  /** The first n ancestors, the role itself first. */
  ghost function Chain(roles: map<string, Option<string>>, name: string, n: nat): (chain: seq<string>)
    requires n > 0 ==> Nth(roles, name, n - 1).Some?
    ensures |chain| == n && forall i | 0 <= i < n :: Nth(roles, name, i) == Some(chain[i])
  {
    if n == 0 then []
    else
      assert n > 1 ==> Nth(roles, name, n - 2).Some?;
      Chain(roles, name, n - 1) + [Nth(roles, name, n - 1).value]
  }

  lemma ChainFits(roles: map<string, Option<string>>, name: string, n: nat)
    requires AcyclicFrom(roles, name) && (n > 0 ==> Nth(roles, name, n - 1).Some?)
    ensures n <= |roles|
  {
    var chain := Chain(roles, name, n);
    forall i, j | 0 <= i < j < n ensures chain[i] != chain[j] {
      assert !RepeatsAt(roles, name, i, j);
    }
    forall i | 0 <= i < n ensures chain[i] in roles.Keys {
      NthInRoles(roles, name, i);
    }
    DistinctInSet(chain, roles.Keys);
  }

  // ---------- ancestry in the parent column ----------

  /** A line of roles that starts with `name`, each the child of the next in the parent column. */
  predicate IsLine(roles: map<string, Option<string>>, name: string, line: seq<string>) {
    && line != [] && line[0] == name
    && (forall i | 0 <= i < |line| :: line[i] in roles)
    && forall i | 0 < i < |line| :: roles[line[i - 1]] == Some(line[i])
  }

  ghost predicate HasLineTo(roles: map<string, Option<string>>, name: string, a: string) {
    exists line :: IsLine(roles, name, line) && line[|line| - 1] == a
  }

  lemma {:induction false} LineIsChain(roles: map<string, Option<string>>, name: string, line: seq<string>, n: nat)
    requires IsLine(roles, name, line) && n < |line|
    ensures Nth(roles, name, n) == Some(line[n])
  {
    if n > 0 {
      LineIsChain(roles, name, line, n - 1);
      assert roles[line[n - 1]] == Some(line[n]);
    }
  }

  lemma {:induction false} LineTo(roles: map<string, Option<string>>, name: string, n: nat) returns (line: seq<string>)
    requires Nth(roles, name, n).Some?
    ensures IsLine(roles, name, line) && |line| == n + 1 && Nth(roles, name, n) == Some(line[n])
  {
    if n == 0 {
      line := [name];
    } else {
      var before := LineTo(roles, name, n - 1);
      line := before + [Nth(roles, name, n).value];
    }
  }

  /** The query reaches exactly the roles at the end of a line of parents. */
  lemma AncestryIsLines(roles: map<string, Option<string>>, name: string, a: string)
    ensures IsAncestor(roles, name, a) <==> HasLineTo(roles, name, a)
  {
    if IsAncestor(roles, name, a) {
      var n: nat :| Nth(roles, name, n) == Some(a);
      var line := LineTo(roles, name, n);
    }
    if HasLineTo(roles, name, a) {
      var line :| IsLine(roles, name, line) && line[|line| - 1] == a;
      LineIsChain(roles, name, line, |line| - 1);
    }
  }

  /** The query ends exactly when no line of parents from the role repeats a role. */
  lemma EndsUnlessLineRepeats(roles: map<string, Option<string>>, name: string)
    ensures QueryEnds(roles, name) <==>
              forall line | IsLine(roles, name, line) :: forall i, j | 0 <= i < j < |line| :: line[i] != line[j]
  {
    QueryEndsExactly(roles, name);
    if AcyclicFrom(roles, name) {
      forall line, i, j | IsLine(roles, name, line) && 0 <= i < j < |line| ensures line[i] != line[j] {
        LineIsChain(roles, name, line, i);
        LineIsChain(roles, name, line, j);
        assert !RepeatsAt(roles, name, i, j);
      }
    } else {
      var i: nat, j: nat :| RepeatsAt(roles, name, i, j);
      var line := LineTo(roles, name, j);
      LineIsChain(roles, name, line, i);
      assert line[i] == line[j];
    }
  }

  /** A role is its own ancestor, and otherwise its ancestors are those of its parent. */
  lemma AncestorStep(roles: map<string, Option<string>>, name: string, a: string)
    requires name in roles
    ensures IsAncestor(roles, name, a) <==>
              || a == name
              || (roles[name].Some? && roles[name].value in roles && IsAncestor(roles, roles[name].value, a))
  {
    assert Nth(roles, name, 0) == Some(name);
    if IsAncestor(roles, name, a) && a != name {
      var n: nat :| Nth(roles, name, n) == Some(a);
      FromParent(roles, name, n - 1);
      assert Nth(roles, roles[name].value, n - 1) == Some(a);
      if roles[name].value !in roles {
        NthNoneStays(roles, roles[name].value, 0, n - 1);
      }
    }
    if roles[name].Some? && roles[name].value in roles && IsAncestor(roles, roles[name].value, a) {
      var n: nat :| Nth(roles, roles[name].value, n) == Some(a);
      FromParent(roles, name, n);
      assert Nth(roles, name, n + 1) == Some(a);
    }
  }

  lemma {:induction false} FromParent(roles: map<string, Option<string>>, name: string, n: nat)
    requires name in roles
    ensures Nth(roles, name, n + 1) == match roles[name] case None => None case Some(p) => Nth(roles, p, n)
  {
    if n > 0 {
      FromParent(roles, name, n - 1);
    } else {
      assert Nth(roles, name, 0) == Some(name);
    }
  }

  // ---------- GetAllPermissions and GetAccessList ----------

  function OfRoles(perms: seq<Permission>, names: set<string>): seq<Permission> {
    if perms == [] then []
    else
      var last := perms[|perms| - 1];
      OfRoles(perms[..|perms| - 1], names) + if last.role in names then [last] else []
  }

  predicate InIdOrder(perms: seq<Permission>) {
    forall i, j | 0 <= i < j < |perms| :: perms[i].id < perms[j].id
  }

  lemma {:induction false} OfRolesInOrder(perms: seq<Permission>, names: set<string>)
    requires InIdOrder(perms)
    ensures InIdOrder(OfRoles(perms, names))
    ensures forall p | p in OfRoles(perms, names) :: p in perms
  {
    if perms != [] {
      var init, last := perms[..|perms| - 1], perms[|perms| - 1];
      OfRolesInOrder(init, names);
      forall p | p in OfRoles(init, names) ensures p.id < last.id {
        var i :| 0 <= i < |init| && init[i] == p;
      }
    }
  }

  lemma {:induction false} OfRolesMember(perms: seq<Permission>, names: set<string>, p: Permission)
    ensures p in OfRoles(perms, names) <==> p in perms && p.role in names
  {
    if perms != [] {
      OfRolesMember(perms[..|perms| - 1], names, p);
      assert perms == perms[..|perms| - 1] + [perms[|perms| - 1]];
    }
  }

  /** The roles that the first n rounds of the query reached. */
  ghost predicate IsReached(roles: map<string, Option<string>>, name: string, n: nat, reached: set<string>) {
    forall a :: a in reached <==> ReachedBefore(roles, name, n, a)
  }

  ghost predicate ReachedBefore(roles: map<string, Option<string>>, name: string, n: nat, a: string) {
    exists i: nat :: i < n && Nth(roles, name, i) == Some(a)
  }

  lemma NextReached(roles: map<string, Option<string>>, name: string, n: nat, reached: set<string>)
    requires IsReached(roles, name, n, reached) && Nth(roles, name, n).Some?
    ensures IsReached(roles, name, n + 1, reached + {Nth(roles, name, n).value})
  {
    hide Nth;
    forall a ensures a in reached + {Nth(roles, name, n).value} <==> ReachedBefore(roles, name, n + 1, a) {
      assert ReachedBefore(roles, name, n, a) ==> ReachedBefore(roles, name, n + 1, a);
    }
  }

  /** Once a round is empty, all ancestors were reached. */
  lemma AllReached(roles: map<string, Option<string>>, name: string, n: nat, reached: set<string>)
    requires IsReached(roles, name, n, reached) && Nth(roles, name, n) == None
    ensures forall a :: a in reached <==> IsAncestor(roles, name, a)
  {
    forall a ensures a in reached <==> IsAncestor(roles, name, a) {
      if IsAncestor(roles, name, a) {
        var i: nat :| Nth(roles, name, i) == Some(a);
        if i >= n { NthNoneStays(roles, name, n, i); }
        assert ReachedBefore(roles, name, n, a);
      }
    }
  }

  lemma NoneReached(roles: map<string, Option<string>>, name: string)
    ensures IsReached(roles, name, 0, {})
  {
  }

  method GetAllPermissions(t: Tables, name: string) returns (permissions: seq<Permission>)
    requires AcyclicFrom(t.roles, name)
    ensures forall p :: p in permissions <==> p in t.perms && IsAncestor(t.roles, name, p.role)
    ensures InIdOrder(t.perms) ==> InIdOrder(permissions)
  {
    hide AcyclicFrom, IsReached, IsAncestor, OfRoles;
    var reached: set<string> := {};
    NoneReached(t.roles, name);
    var working := if name in t.roles then Some(name) else None;
    ghost var n := 0;
    while working.Some?
      invariant working == Nth(t.roles, name, n)
      invariant IsReached(t.roles, name, n, reached)
      decreases |t.roles| - n
    {
      ChainFits(t.roles, name, n + 1);
      NextReached(t.roles, name, n, reached);
      reached := reached + {working.value};
      NthInRoles(t.roles, name, n);
      var parent := t.roles[working.value];
      working := if parent.Some? && parent.value in t.roles then parent else None;
      n := n + 1;
    }
    AllReached(t.roles, name, n, reached);
    permissions := OfRoles(t.perms, reached);
    if InIdOrder(t.perms) {
      OfRolesInOrder(t.perms, reached);
    }
    forall p ensures p in permissions <==> p in t.perms && IsAncestor(t.roles, name, p.role) {
      OfRolesMember(t.perms, reached, p);
    }
  }

  /** The role or some ancestor has this permission row. */
  ghost predicate Holds(t: Tables, name: string, pack: string, level: string) {
    exists p | p in t.perms :: p.pack == pack && p.level == level && IsAncestor(t.roles, name, p.role)
  }

  ghost predicate HoldsByAncestor(t: Tables, name: string, pack: string, level: string) {
    exists p | p in t.perms :: p.pack == pack && p.level == level && IsProperAncestor(t.roles, name, p.role)
  }

  /** A role holds what it has rows for itself and everything that its parent holds. */
  lemma HoldsWithParent(t: Tables, name: string, pack: string, level: string)
    requires name in t.roles
    ensures Holds(t, name, pack, level) <==>
              || Owns(t, name, pack, level)
              || (t.roles[name].Some? && t.roles[name].value in t.roles && Holds(t, t.roles[name].value, pack, level))
  {
    forall p | p in t.perms
      ensures IsAncestor(t.roles, name, p.role) <==>
                || p.role == name
                || (t.roles[name].Some? && t.roles[name].value in t.roles
                    && IsAncestor(t.roles, t.roles[name].value, p.role))
    {
      AncestorStep(t.roles, name, p.role);
    }
  }

  predicate Owns(t: Tables, name: string, pack: string, level: string) {
    exists p | p in t.perms :: p.pack == pack && p.level == level && p.role == name
  }

  predicate NoRepeats(levels: seq<string>) {
    forall i, j | 0 <= i < j < |levels| :: levels[i] != levels[j]
  }

  type AccessList = map<string, seq<string>>

  predicate Lists(list: AccessList, pack: string, level: string) {
    pack in list && level in list[pack]
  }

  predicate WellGrouped(list: AccessList) {
    forall pack | pack in list :: list[pack] != [] && NoRepeats(list[pack])
  }

  method Exists(levels: seq<string>, level: string) returns (exist: bool)
    ensures exist <==> level in levels
  {
    exist := false;
    for k := 0 to |levels|
      invariant exist <==> level in levels[..k]
    {
      if level == levels[k] {
        exist := true;
      }
    }
    assert levels[..|levels|] == levels;
  }

  /** Each package maps to a non-empty list without repetitions that holds a level exactly when the
      role or one of its ancestors has that permission. */
  method GetAccessList(t: Tables, name: string) returns (list: AccessList)
    requires AcyclicFrom(t.roles, name)
    ensures WellGrouped(list)
    ensures forall pack, level :: Lists(list, pack, level) <==> Holds(t, name, pack, level)
  {
    list := map[];
    var permissions := GetAllPermissions(t, name);
    for i := 0 to |permissions|
      invariant WellGrouped(list)
      invariant forall pack, level :: Lists(list, pack, level) <==>
                  exists j | 0 <= j < i :: permissions[j].pack == pack && permissions[j].level == level
    {
      var perm := permissions[i];
      var levels := if perm.pack in list then list[perm.pack] else [];
      var exist := Exists(levels, perm.level);
      ghost var before := list;
      if !exist {
        list := list[perm.pack := levels + [perm.level]];
      }
      assert forall pack, level :: Lists(list, pack, level) <==>
          Lists(before, pack, level) || (pack == perm.pack && level == perm.level);
    }
    forall pack, level ensures Lists(list, pack, level) <==> Holds(t, name, pack, level) {
      if Holds(t, name, pack, level) {
        var p :| p in t.perms && p.pack == pack && p.level == level && IsAncestor(t.roles, name, p.role);
        var j :| 0 <= j < |permissions| && permissions[j] == p;
      }
      if Lists(list, pack, level) {
        var j :| 0 <= j < |permissions| && permissions[j].pack == pack && permissions[j].level == level;
        assert permissions[j] in permissions;
      }
    }
  }
}
