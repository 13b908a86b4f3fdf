/** The round trip on attribute sets in memory. */
module AttributeRestore {
  import opened AttributeTree
  import AttributeLaws
  import opened AttributeHeap

  /** A stripped copy of a set, filled with the set's serialized values: a new set with the same
      contents, in whatever order any of the maps are visited. The first set stays as it is. */
  method Restore(a: AttributeSet, show: Value -> string) returns (b: AttributeSet)
    requires a.Valid() && AttributeLaws.RoundTrippable(a.Contents())
    ensures b.Valid() && fresh(b.Repr)
    ensures b.Contents() == a.Contents() == old(a.Contents())
  {
    hide AttributeTree.Fill, AttributeTree.CanFill, CanSerialize, AttributeSet.Contents, AttributeSet.Valid;
    AttributeLaws.RoundTrip(a.Contents());
    var data := a.Serialize();
    b := a.Signature();
    var changed := b.Deserialize(data, show);
  }

  /** The same data a second time leaves the set alone and reports no change. */
  method FillAgain(a: AttributeSet, data: AttributeValue, show: Value -> string) returns (changed: bool, again: bool)
    requires a.Valid() && CanFill(data, a.Contents())
    modifies a.Repr
    ensures a.Valid() && fresh(a.Repr - old(a.Repr))
    ensures a.Contents() == Fill(data, old(a.Contents()))
    ensures changed == Changed(show, data, old(a.Contents())) && !again
  {
    hide AttributeTree.Fill, AttributeTree.CanFill, AttributeSet.Contents, AttributeSet.Valid, Changed;
    ghost var before := a.Contents();
    AttributeLaws.FillTwice(show, data, before);
    changed := a.Deserialize(data, show);
    again := a.Deserialize(data, show);
  }
}
