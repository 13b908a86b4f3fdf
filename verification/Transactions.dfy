/** The transaction manager over an arbitrary set of tables: a transaction either keeps what its body
    did or puts the tables back as they were. Ids come from Postgres sequences: any unused id. */
module Transactions {

  /** How a transaction body ends: normally, with an error, or with a panic. */
  datatype Outcome = Done | Failed | Panicked

  /** A single statement. On a reliable database it fails only if the tables refuse it, which the
      callers check; otherwise it may also fail or panic by itself. */
  method Statement(reliable: bool) returns (outcome: Outcome)
    ensures reliable ==> outcome == Done
  {
    outcome := *;
    if reliable {
      outcome := Done;
    }
  }

  class Session<!T(0)> {
    var tables: T
    const Reliable: bool

    constructor (tables: T, reliable: bool)
      ensures this.tables == tables && Reliable == reliable
    {
      this.tables := tables;
      Reliable := reliable;
    }

    /** The deferred block of Do. `before` is what the tables were at Begin. The result of Commit is
        ignored, so a failed commit loses the work without an error. */
    method Finish(before: T, outcome: Outcome, commits: bool) returns (failed: bool)
      modifies this
      ensures failed <==> outcome != Done
      ensures tables == if outcome == Done && commits then old(tables) else before
    {
      failed := false;
      if outcome.Panicked? {
        tables := before;
        failed := true;
        return;
      }
      if outcome.Failed? {
        tables := before;
        failed := true;
        return;
      }
      if !commits {
        tables := before;
      }
    }
  }

  /** There is always an id that no row uses. */
  lemma {:induction false} FreshId(used: seq<int>) returns (id: int)
    ensures id > 0 && id !in used && forall u | u in used :: u < id
  {
    if used == [] {
      id := 1;
    } else {
      assert used == [used[0]] + used[1..];
      var rest := FreshId(used[1..]);
      id := if rest > used[0] then rest else used[0] + 1;
    }
  }
}
