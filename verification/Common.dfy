/** Small shared vocabulary: optional values, outcomes of a database step, and a counting fact. */
module Common {

  datatype Option<+T> = None | Some(value: T)

  /** A sequence without duplicates, drawn from another sequence, is no longer than it. */
  lemma {:induction false} Pigeonhole<T>(s: seq<T>, pool: seq<T>)
    requires forall i | 0 <= i < |s| :: s[i] in pool
    requires forall i, j | 0 <= i < j < |s| :: s[i] != s[j]
    ensures |s| <= |pool|
  {
    if s != [] {
      var i :| 0 <= i < |pool| && pool[i] == s[0];
      var rest := pool[..i] + pool[i + 1..];
      forall j | 0 <= j < |s[1..]| ensures s[1..][j] in rest {
        var m :| 0 <= m < |pool| && pool[m] == s[j + 1];
        assert rest[if m < i then m else m - 1] == s[j + 1];
      }
      Pigeonhole(s[1..], rest);
    }
  }

  lemma {:induction false} DistinctInSet<T>(s: seq<T>, pool: set<T>)
    requires forall i | 0 <= i < |s| :: s[i] in pool
    requires forall i, j | 0 <= i < j < |s| :: s[i] != s[j]
    ensures |s| <= |pool|
  {
    if s != [] {
      DistinctInSet(s[1..], pool - {s[0]});
    }
  }
}
