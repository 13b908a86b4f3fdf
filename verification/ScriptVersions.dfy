/** The version history of scripts: every update appends a version, and only the ten newest stay. */
module ScriptVersions {
  import opened Common
  import opened Transactions

  datatype Version = Version(script: int, source: string, created: int)

  datatype Script = Script(name: string, source: string)

  /** Version rows are in insertion order. */
  datatype Tables = Tables(scripts: map<int, Script>, versions: seq<Version>)

  // ---------- the trimming query ----------

  /** w comes before v when the versions of a script are listed newest first; rows with equal stamps
      are listed latest first. */
  predicate IsNewer(all: seq<Version>, w: nat, v: nat)
    requires w < |all| && v < |all|
  {
    all[w].script == all[v].script &&
    (all[w].created > all[v].created || (all[w].created == all[v].created && w > v))
  }

  function CountNewer(all: seq<Version>, v: nat, n: nat): nat
    requires v < |all| && n <= |all|
  {
    if n == 0 then 0 else CountNewer(all, v, n - 1) + if IsNewer(all, n - 1, v) then 1 else 0
  }

  /** DELETE ... WHERE id not in (the ten newest of the script) and script_id = the script. */
  function Trim(all: seq<Version>, script: int, n: nat): seq<Version>
    requires n <= |all|
  {
    if n == 0 then []
    else
      Trim(all, script, n - 1) +
      if all[n - 1].script != script || CountNewer(all, n - 1, |all|) < 10 then [all[n - 1]] else []
  }

  function Appended(versions: seq<Version>, v: Version): seq<Version> {
    var all := versions + [v];
    Trim(all, v.script, |all|)
  }

  // ---------- Update ----------

  /** No other script has the name. */
  predicate IsFree(scripts: map<int, Script>, id: int, name: string) {
    forall other | other in scripts :: other != id ==> scripts[other].name != name
  }

  /** Not a transaction: an error after the first statement leaves the script row updated. */
  method Update(s: Session<Tables>, id: int, script: Script, now: int) returns (outcome: Outcome)
    modifies s
    ensures s.Reliable ==>
              (outcome == Done <==> id in old(s.tables.scripts) && IsFree(old(s.tables.scripts), id, script.name))
    ensures outcome == Done ==>
              && id in old(s.tables.scripts)
              && s.tables.scripts == old(s.tables.scripts)[id := script]
              && s.tables.versions == Appended(old(s.tables.versions), Version(id, script.source, now))
    ensures outcome != Done ==>
              forall other | other in old(s.tables.scripts) && other != id ::
                other in s.tables.scripts && s.tables.scripts[other] == old(s.tables.scripts)[other]
    ensures outcome != Done ==>
              s.tables.versions == old(s.tables.versions) ||
              s.tables.versions == old(s.tables.versions) + [Version(id, script.source, now)]
  {
    if !IsFree(s.tables.scripts, id, script.name) {
      return Failed;
    }
    outcome := Statement(s.Reliable);
    if outcome != Done {
      return;
    }
    if id in s.tables.scripts {
      s.tables := s.tables.(scripts := s.tables.scripts[id := script]);
    }
    outcome := Statement(s.Reliable);
    if outcome != Done || id !in s.tables.scripts {
      return Failed;
    }
    var all := s.tables.versions + [Version(id, script.source, now)];
    s.tables := s.tables.(versions := all);
    outcome := Statement(s.Reliable);
    if outcome != Done {
      return;
    }
    s.tables := s.tables.(versions := Trim(all, id, |all|));
  }

  // ---------- histories ----------

  /** The stored sources of a script, oldest first. */
  function History(versions: seq<Version>, script: int): seq<string> {
    if versions == [] then []
    else
      var last := versions[|versions| - 1];
      History(versions[..|versions| - 1], script) + if last.script == script then [last.source] else []
  }

  function LastTen(h: seq<string>): seq<string> {
    if |h| <= 10 then h else h[|h| - 10..]
  }

  predicate Increasing(versions: seq<Version>) {
    forall i, j | 0 <= i < j < |versions| :: versions[i].created < versions[j].created
  }

  lemma {:induction false} HistoryAppend(a: seq<Version>, b: seq<Version>, script: int)
    ensures History(a + b, script) == History(a, script) + History(b, script)
  {
    if b == [] {
      assert a + b == a;
    } else {
      assert (a + b)[..|a + b| - 1] == a + b[..|b| - 1];
      HistoryAppend(a, b[..|b| - 1], script);
    }
  }

  lemma OneHistory(v: Version, h: int)
    ensures History([v], h) == if v.script == h then [v.source] else []
  {
    assert [v][..0] == [];
  }

  lemma NoHistory(versions: seq<Version>, h: int)
    requires versions == []
    ensures History(versions, h) == []
  {
  }

  /** With increasing stamps the newer versions of a script are the later ones. */
  lemma {:induction false} NewerIsLater(all: seq<Version>, v: nat, n: nat)
    requires Increasing(all) && v < |all| && n <= |all|
    ensures CountNewer(all, v, n) == if n <= v then 0 else |History(all[v + 1..n], all[v].script)|
  {
    hide History;
    if n > 0 {
      NewerIsLater(all, v, n - 1);
      if n - 1 == v {
        NoHistory(all[v + 1..n], all[v].script);
      } else if n - 1 > v {
        OneHistory(all[n - 1], all[v].script);
        assert all[v + 1..n] == all[v + 1..n - 1] + [all[n - 1]];
        HistoryAppend(all[v + 1..n - 1], [all[n - 1]], all[v].script);
      }
    }
  }

  /** How many of the script's versions among the first n were dropped, given the total. */
  function Dropped(total: nat, seen: nat): nat {
    if total <= 10 then 0 else if seen < total - 10 then seen else total - 10
  }

  lemma TrimStep(all: seq<Version>, script: int, h: int, n: nat)
    requires 0 < n <= |all|
    ensures var v := all[n - 1];
            History(Trim(all, script, n), h) == History(Trim(all, script, n - 1), h) +
            if v.script == h && (h != script || CountNewer(all, n - 1, |all|) < 10) then [v.source] else []
  {
    HistoryAppend(Trim(all, script, n - 1), [all[n - 1]], h);
    OneHistory(all[n - 1], h);
    assert Trim(all, script, n - 1) + [] == Trim(all, script, n - 1);
  }

  lemma {:induction false} TrimHistory(all: seq<Version>, script: int, n: nat)
    requires Increasing(all) && n <= |all|
    ensures var seen := History(all[..n], script);
            |seen| <= |History(all, script)| &&
            History(Trim(all, script, n), script) == seen[Dropped(|History(all, script)|, |seen|)..]
  {
    if n == 0 {
      assert History(all[..0], script) == [];
    } else {
      TrimHistory(all, script, n - 1);
      TrimHistoryStep(all, script, n);
    }
  }

  lemma TrimHistoryStep(all: seq<Version>, script: int, n: nat)
    requires Increasing(all) && 0 < n <= |all|
    requires var seen := History(all[..n - 1], script);
             |seen| <= |History(all, script)| &&
             History(Trim(all, script, n - 1), script) == seen[Dropped(|History(all, script)|, |seen|)..]
    ensures var seen := History(all[..n], script);
            |seen| <= |History(all, script)| &&
            History(Trim(all, script, n), script) == seen[Dropped(|History(all, script)|, |seen|)..]
  {
    hide CountNewer, Trim, History, Increasing;
    var v := all[n - 1];
    var before := History(all[..n - 1], script);
    assert all[..n] == all[..n - 1] + [v];
    assert all == all[..n] + all[n..];
    HistoryAppend(all[..n], all[n..], script);
    HistoryAppend(all[..n - 1], [v], script);
    OneHistory(v, script);
    TrimStep(all, script, script, n);
    NewerIsLater(all, n - 1, |all|);
    assert all[n..|all|] == all[n..];
    if v.script == script {
      DropStep(before, v.source, |History(all, script)|, CountNewer(all, n - 1, |all|));
    } else {
      assert before + [] == before;
    }
  }

  lemma DropStep(seen: seq<string>, x: string, total: nat, after: nat)
    requires total == |seen| + 1 + after
    ensures seen[Dropped(total, |seen|)..] + (if after < 10 then [x] else [])
            == (seen + [x])[Dropped(total, |seen| + 1)..]
  {
  }

  lemma {:induction false} TrimOthers(all: seq<Version>, script: int, other: int, n: nat)
    requires n <= |all| && other != script
    ensures History(Trim(all, script, n), other) == History(all[..n], other)
  {
    if n > 0 {
      TrimOthers(all, script, other, n - 1);
      assert all[..n] == all[..n - 1] + [all[n - 1]];
      HistoryAppend(all[..n - 1], [all[n - 1]], other);
      OneHistory(all[n - 1], other);
      TrimStep(all, script, other, n);
    }
  }

  lemma {:induction false} TrimKeepsOrder(all: seq<Version>, script: int, n: nat)
    requires Increasing(all) && n <= |all|
    ensures Increasing(Trim(all, script, n))
    ensures forall v | v in Trim(all, script, n) :: v in all[..n]
  {
    if n > 0 {
      TrimKeepsOrder(all, script, n - 1);
      forall v | v in Trim(all, script, n - 1) ensures v.created < all[n - 1].created {
        var i :| 0 <= i < n - 1 && all[i] == v;
      }
    }
  }

  // ---------- stamps in any order ----------

  function Of(all: seq<Version>, script: int): set<nat> {
    set i | 0 <= i < |all| && all[i].script == script
  }

  function Newer(all: seq<Version>, v: nat, n: nat): set<nat>
    requires v < |all| && n <= |all|
  {
    set j | 0 <= j < n && IsNewer(all, j, v)
  }

  lemma {:induction false} CountIsSize(all: seq<Version>, v: nat, n: nat)
    requires v < |all| && n <= |all|
    ensures CountNewer(all, v, n) == |Newer(all, v, n)|
  {
    if n > 0 {
      CountIsSize(all, v, n - 1);
      if IsNewer(all, n - 1, v) {
        assert Newer(all, v, n) == Newer(all, v, n - 1) + {n - 1};
      } else {
        assert Newer(all, v, n) == Newer(all, v, n - 1);
      }
    }
  }

  lemma SmallerSize(a: set<nat>, b: set<nat>)
    requires a < b
    ensures |a| < |b|
  {
    var rest := b - a;
    assert b == a + rest;
  }

  /** A newer version has fewer versions before it. */
  lemma NewerCountsLess(all: seq<Version>, w: nat, v: nat)
    requires w < |all| && v < |all| && IsNewer(all, w, v)
    ensures CountNewer(all, w, |all|) < CountNewer(all, v, |all|)
  {
    CountIsSize(all, w, |all|);
    CountIsSize(all, v, |all|);
    assert w in Newer(all, v, |all|) && w !in Newer(all, w, |all|);
    SmallerSize(Newer(all, w, |all|), Newer(all, v, |all|));
  }

  /** The versions of a script with fewer than k newer ones. */
  function Best(all: seq<Version>, script: int, k: nat): set<nat> {
    set i | i in Of(all, script) && 0 <= i < |all| && CountNewer(all, i, |all|) < k
  }

  lemma NewerIsOrder(all: seq<Version>, script: int, x: nat, v: nat, w: nat)
    requires x in Of(all, script) && v in Of(all, script) && w in Of(all, script)
    ensures x != v ==> IsNewer(all, x, v) || IsNewer(all, v, x)
    ensures IsNewer(all, x, v) && IsNewer(all, v, w) ==> IsNewer(all, x, w)
  {
  }

  lemma {:induction false} Newest(all: seq<Version>, script: int, among: set<nat>) returns (u: nat)
    requires among != {} && among <= Of(all, script)
    ensures u in among && forall w | w in among && w != u :: IsNewer(all, u, w)
    decreases |among|
  {
    hide IsNewer;
    var x :| x in among;
    var rest := among - {x};
    assert among == rest + {x};
    if rest == {} {
      u := x;
    } else {
      var v := Newest(all, script, rest);
      u := if IsNewer(all, v, x) then v else x;
      forall w | w in among && w != u ensures IsNewer(all, u, w) {
        if w == x {
          NewerIsOrder(all, script, x, v, x);
        } else {
          NewerIsOrder(all, script, x, v, w);
        }
      }
    }
  }

  /** The k newest are k, or all of them. */
  lemma {:induction false} BestSize(all: seq<Version>, script: int, k: nat)
    ensures |Best(all, script, k)| == if |Of(all, script)| < k then |Of(all, script)| else k
    decreases k
  {
    if k == 0 {
      assert Best(all, script, 0) == {};
    } else {
      BestSize(all, script, k - 1);
      var before := Best(all, script, k - 1);
      if before == Of(all, script) {
        assert Best(all, script, k) == before;
      } else {
        SmallerSize(before, Of(all, script));
        assert Of(all, script) == before + (Of(all, script) - before);
        var u := Newest(all, script, Of(all, script) - before);
        NextBest(all, script, k, u);
      }
    }
  }

  lemma NextBest(all: seq<Version>, script: int, k: nat, u: nat)
    requires k > 0 && |Best(all, script, k - 1)| == k - 1
    requires u in Of(all, script) - Best(all, script, k - 1)
    requires forall w | w in Of(all, script) - Best(all, script, k - 1) && w != u :: IsNewer(all, u, w)
    ensures Best(all, script, k) == Best(all, script, k - 1) + {u}
  {
    var before := Best(all, script, k - 1);
    var others := Of(all, script) - before;
    forall w | w in others && w != u ensures !IsNewer(all, w, u) {
      assert IsNewer(all, u, w);
    }
    forall j | j in before ensures IsNewer(all, j, u) {
      if !IsNewer(all, j, u) {
        assert j != u && all[j].script == all[u].script;
        NewerCountsLess(all, u, j);
        assert false;
      }
    }
    forall j: nat | j < |all| && IsNewer(all, j, u) ensures j in before {
      assert j in Of(all, script) && j != u;
    }
    assert Newer(all, u, |all|) == before;
    CountIsSize(all, u, |all|);
    forall w | w in Of(all, script) - before && w != u ensures CountNewer(all, w, |all|) >= k {
      NewerCountsLess(all, u, w);
    }
  }

  lemma {:induction false} TrimSize(all: seq<Version>, script: int, n: nat)
    requires n <= |all|
    ensures |History(Trim(all, script, n), script)| == |set i | i in Best(all, script, 10) && i < n|
  {
    hide History, Trim, CountNewer;
    var kept := set i | i in Best(all, script, 10) && i < n;
    if n == 0 {
      assert kept == {};
      NothingTrimmed(all, script);
    } else {
      TrimSize(all, script, n - 1);
      TrimStep(all, script, script, n);
      var best := Best(all, script, 10);
      assert n - 1 in best <==> all[n - 1].script == script && CountNewer(all, n - 1, |all|) < 10;
      BelowStep(best, n);
    }
  }

  lemma BelowStep(best: set<nat>, n: nat)
    requires n > 0
    ensures |set i | i in best && i < n| == |set i | i in best && i < n - 1| + if n - 1 in best then 1 else 0
  {
    var before := set i | i in best && i < n - 1;
    assert (set i | i in best && i < n) == before + if n - 1 in best then {n - 1} else {};
  }

  lemma NothingTrimmed(all: seq<Version>, script: int)
    ensures History(Trim(all, script, 0), script) == []
  {
  }

  lemma {:induction false} HistorySize(all: seq<Version>, script: int)
    ensures |History(all, script)| == |Of(all, script)|
  {
    if all != [] {
      var n := |all| - 1;
      HistorySize(all[..n], script);
      assert Of(all, script) == Of(all[..n], script) + if all[n].script == script then {n} else {};
    }
  }

  /** A version survives the trimming at position i. */
  predicate Survives(all: seq<Version>, script: int, i: nat)
    requires i < |all|
  {
    Trim(all, script, i + 1) != Trim(all, script, i)
  }

  /** Whatever the stamps are, ten versions of the script stay, or all if it has fewer, and none that
      goes has a later stamp than one that stays. */
  lemma TrimKeepsNewest(all: seq<Version>, script: int)
    ensures var total := |History(all, script)|;
            |History(Trim(all, script, |all|), script)| == if total < 10 then total else 10
    ensures forall i, j | 0 <= i < |all| && 0 <= j < |all| && all[i].script == script && all[j].script == script
                          && Survives(all, script, i) && !Survives(all, script, j) ::
              all[j].created <= all[i].created
  {
    TrimSize(all, script, |all|);
    assert Best(all, script, 10) == set i | i in Best(all, script, 10) && i < |all|;
    BestSize(all, script, 10);
    HistorySize(all, script);
    forall i, j | 0 <= i < |all| && 0 <= j < |all| && all[i].script == script && all[j].script == script
                  && Survives(all, script, i) && !Survives(all, script, j)
      ensures all[j].created <= all[i].created
    {
      if IsNewer(all, j, i) {
        NewerCountsLess(all, j, i);
      }
    }
  }

  // ---------- runs ----------

  /** The version rows after a run of successful updates. */
  function Run(start: seq<Version>, updates: seq<Version>): seq<Version> {
    if updates == [] then start
    else Appended(Run(start, updates[..|updates| - 1]), updates[|updates| - 1])
  }

  /** After every run with increasing stamps, from any table of older versions, each script that was
      updated keeps exactly the ten latest of its old sources and its updates, in order; a script that
      was not keeps its history. */
  lemma {:induction false} BoundedHistory(start: seq<Version>, updates: seq<Version>, script: int)
    requires Increasing(start + updates)
    ensures History(Run(start, updates), script)
            == if History(updates, script) == [] then History(start, script)
               else LastTen(History(start, script) + History(updates, script))
    ensures Increasing(Run(start, updates)) && forall v | v in Run(start, updates) :: v in start + updates
    decreases |updates|
  {
    hide Trim, Appended, Increasing, LastTen;
    if updates == [] {
      assert start + updates == start;
      assert History(updates, script) == [];
    } else {
      var before, v := updates[..|updates| - 1], updates[|updates| - 1];
      assert updates == before + [v];
      assert start + updates == start + before + [v];
      EarlierIncrease(start + before, v);
      BoundedHistory(start, before, script);
      HistoryAppend(before, [v], script);
      OneHistory(v, script);
      var rows := Run(start, before);
      AllOlder(rows, start + before, v);
      AppendedHistory(rows, v, script);
      RunStep(History(rows, script), History(start, script), History(before, script), v.source);
    }
  }

  /** An update after a run: h is what the script keeps so far. */
  lemma RunStep(h: seq<string>, earlier: seq<string>, later: seq<string>, x: string)
    requires h == if later == [] then earlier else LastTen(earlier + later)
    ensures (h + [x])[Dropped(|h| + 1, |h| + 1)..] == LastTen(earlier + (later + [x]))
    ensures later + [] == later
  {
    assert earlier + (later + [x]) == earlier + later + [x];
    if later == [] {
      assert earlier + later == earlier;
    }
  }

  lemma EarlierIncrease(before: seq<Version>, v: Version)
    requires Increasing(before + [v])
    ensures Increasing(before)
  {
    assert forall i | 0 <= i < |before| :: (before + [v])[i] == before[i];
  }

  lemma AllOlder(rows: seq<Version>, before: seq<Version>, v: Version)
    requires Increasing(before + [v]) && Increasing(rows) && forall w | w in rows :: w in before
    ensures Increasing(rows + [v])
  {
    forall w | w in rows ensures w.created < v.created {
      var i :| 0 <= i < |before| && before[i] == w;
      assert (before + [v])[i] == w && (before + [v])[|before|] == v;
    }
  }

  /** One update: the newest source joins the script's own history, which is cut to ten. */
  lemma AppendedHistory(rows: seq<Version>, v: Version, script: int)
    requires Increasing(rows + [v])
    ensures History(Appended(rows, v), script)
            == if v.script != script then History(rows, script)
               else History(rows + [v], script)[Dropped(|History(rows, script)| + 1, |History(rows, script)| + 1)..]
    ensures History(rows + [v], script) == History(rows, script) + if v.script == script then [v.source] else []
    ensures Increasing(Appended(rows, v))
    ensures forall w | w in Appended(rows, v) :: w in rows || w == v
  {
    var all := rows + [v];
    assert all[..|all|] == all && all[..|all| - 1] == rows;
    TrimKeepsOrder(all, v.script, |all|);
    if v.script == script {
      TrimHistory(all, script, |all|);
    } else {
      TrimOthers(all, v.script, script, |all|);
    }
  }
}
