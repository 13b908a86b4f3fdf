/** Attribute sets as the program holds them: maps of pointers that are updated in place. Every
    operation here is tied to its function on values in AttributeTree. */
module AttributeHeap {
  import opened AttributeTree

  /** A value in memory: nested sets, also those inside a list, are held by reference. */
  datatype HeapValue = Plain(value: Value) | Nested(inner: AttributeSet) | Items(items: seq<HeapItem>)

  datatype HeapItem = PlainItem(value: Value) | SetItem(inner: AttributeSet)

  /** Lists own the sets in them: each lies in `room`, apart from the others. */
  ghost predicate ItemsValid(items: seq<HeapItem>, room: set<object>)
    reads room
    decreases room, 2
  {
    && (forall i | 0 <= i < |items| :: ItemValid(items[i], room))
    && (forall i, j | 0 <= i < j < |items| :: Apart(items[i], items[j], room))
  }

  ghost predicate ItemValid(item: HeapItem, room: set<object>)
    reads room
    decreases room, 1
  {
    match item
    case PlainItem(v) => !v.Tree?
    case SetItem(s) => s in room && s.Repr <= room && s.Valid()
  }

  ghost predicate Apart(a: HeapItem, b: HeapItem, room: set<object>)
    reads room
  {
    a.SetItem? && b.SetItem? ==> a.inner in room && b.inner in room && a.inner.Repr !! b.inner.Repr
  }

  function ItemsContents(items: seq<HeapItem>, ghost room: set<object>): (contents: seq<Value>)
    requires ItemsValid(items, room)
    reads room
    ensures |contents| == |items|
    decreases room, 2
  {
    seq(|items|, i requires 0 <= i < |items| && ItemValid(items[i], room) reads room => ItemContents(items[i], room))
  }

  function ItemContents(item: HeapItem, ghost room: set<object>): Value
    requires ItemValid(item, room)
    reads room
    decreases room, 1
  {
    match item
    case PlainItem(v) => v
    case SetItem(s) => Tree(s.Contents())
  }

  lemma PlainItems(value: Value, room: set<object>)
    requires value.List? ==> forall i | 0 <= i < |value.items| :: !value.items[i].Tree?
    ensures value.List? ==>
              var items := ToHeap(value).items; ItemsValid(items, room) && ItemsContents(items, room) == value.items
  {
    if value.List? {
      var items := ToHeap(value).items;
      assert forall i | 0 <= i < |items| :: items[i] == PlainItem(value.items[i]);
      forall i, j | 0 <= i < j < |items| ensures Apart(items[i], items[j], room) {
        assert items[i].PlainItem?;
      }
    }
  }

  lemma WiderRoom(items: seq<HeapItem>, room: set<object>, wider: set<object>)
    requires ItemsValid(items, room) && room <= wider
    ensures ItemsValid(items, wider) && ItemsContents(items, wider) == ItemsContents(items, room)
  {
    forall i, j | 0 <= i < j < |items| ensures Apart(items[i], items[j], wider) {
      assert Apart(items[i], items[j], room);
    }
    forall i | 0 <= i < |items|
      ensures ItemValid(items[i], wider) && ItemContents(items[i], wider) == ItemContents(items[i], room)
    {
      assert ItemValid(items[i], room);
    }
  }

  class Cell {
    const Name: string
    const Type: string
    var Value: HeapValue
    ghost var Repr: set<object>

    ghost predicate Valid()
      reads this, Repr
      ensures Valid() ==> this in Repr
      decreases Repr, 0
    {
      && this in Repr
      && match Value
         case Plain(v) => !v.Tree? && !v.List?
         case Nested(s) => s in Repr && s.Repr <= Repr - {this} && s.Valid()
         case Items(items) => ItemsValid(items, Repr - {this})
    }

    function Contents(): Attribute
      requires Valid()
      reads this, Repr
      decreases Repr, 0
    {
      Attribute(Name, Type,
                match Value
                case Plain(v) => v
                case Nested(s) => Tree(s.Contents())
                case Items(items) => List(ItemsContents(items, Repr - {this})))
    }

    /** Replace the value in place. */
    method SetPlain(value: Value)
      requires Valid()
      requires !value.Tree? && (value.List? ==> forall i | 0 <= i < |value.items| :: !value.items[i].Tree?)
      modifies this
      ensures Valid() && Repr == old(Repr)
      ensures Contents() == old(Contents()).(value := value)
    {
      Value := ToHeap(value);
      PlainItems(value, Repr - {this});
    }

    method SetItems(items: seq<HeapItem>, ghost room: set<object>)
      requires this in Repr && this !in room && ItemsValid(items, room)
      modifies this
      ensures Valid() && Repr == old(Repr) + room
      ensures Contents() == Attribute(Name, Type, List(old(ItemsContents(items, room))))
    {
      Value := Items(items);
      Repr := Repr + room;
      assert ItemsValid(items, room);
      WiderRoom(items, room, Repr - {this});
    }

    method SetNested(s: AttributeSet)
      requires this in Repr && s.Valid() && this !in s.Repr
      modifies this
      ensures Valid() && Repr == old(Repr) + s.Repr
      ensures Contents() == Attribute(Name, Type, Tree(s.Contents()))
    {
      Value := Nested(s);
      Repr := Repr + s.Repr;
    }

    /** A datum that is not a scalar changes this cell in place. */
    method FillIn(d: Value, show: Value -> string) returns (changed: bool)
      requires Valid() && !IsScalarDatum(d) && CanFillOne(d, Contents())
      modifies Repr
      ensures Valid() && fresh(Repr - old(Repr))
      ensures Contents() == FillOne(d, old(Contents()))
      ensures changed == ChangedOne(show, d, old(Contents()))
      decreases d, 0
    {
      hide Fill, Changed, CanFill, Rebuild, CanRebuild;
      hide ItemsValid, ItemsContents, AttributeSet.Valid, AttributeSet.Contents;
      changed := false;
      match d {
        case Nil =>
        case Raw(f) =>
          if Value.Plain? && Value.value.Raw? {
            var attrs := RebuildSet(Value.value.fields, f);
            changed := attrs.Deserialize(f, show);
            SetNested(attrs);
          } else if Value.Nested? {
            changed := Value.inner.Deserialize(f, show);
            SetNested(Value.inner);
          }
        case Data(f) =>
          if Value.Nested? {
            changed := Value.inner.Deserialize(f, show);
            SetNested(Value.inner);
          }
        case List(items) =>
          var held, room := BuildItems(KeptItems(items));
          SetItems(held, room);
      }
    }

    method Copy() returns (c: Cell)
      requires Valid()
      ensures c.Valid() && fresh(c.Repr) && c.Contents() == Contents()
      decreases Repr, 0
    {
      hide ItemsValid, ItemsContents, AttributeSet.Valid, AttributeSet.Contents;
      match Value {
        case Plain(v) =>
          c := new Cell(Name, Type, v);
        case Nested(s) =>
          var t := s.Copy();
          c := new Cell(Name, Type, Nil);
          c.SetNested(t);
        case Items(items) =>
          c := new Cell(Name, Type, Nil);
          var copies, room := CopyItems(items, Repr - {this});
          c.SetItems(copies, room);
      }
    }

    /** The datum this cell is stored as; cells that are skipped are not asked. */
    method Serialize() returns (d: Value)
      requires Valid() && IsSerialized(Contents()) && CanSerializeOne(Contents())
      ensures d == SerializeOne(Contents())
      decreases Repr, 0
    {
      hide ItemsValid, ItemsContents, AttributeSet.Valid, AttributeSet.Contents, AttributeTree.Serialize, CanSerialize;
      if Type == ARRAY {
        var arr := [];
        if Value.Items? {
          ghost var held := ItemsContents(Value.items, Repr - {this});
          assert Contents().value == List(held);
          assert forall i | 0 <= i < |held| && held[i].Tree? :: CanSerialize(Contents().value.items[i].tree);
          arr := SerializeList(Value.items, Repr - {this});
        }
        d := List(arr);
      } else if Type == MAP && Value.Nested? {
        var attr := Value.inner.Serialize();
        d := Data(attr);
      } else {
        d := Contents().value;
      }
    }

    /** One step of the walk that strips values: the value is overwritten in place. */
    method Sign()
      requires Valid() && IsSigned(Contents())
      modifies Repr
      ensures Valid() && fresh(Repr - old(Repr))
      ensures Contents() == SignatureOne(old(Contents()))
      decreases Repr, 0
    {
      hide ItemsValid, ItemsContents, AttributeSet.Valid, AttributeSet.Contents;
      hide SignatureItems, AttributeTree.Signature;
      if Type == ARRAY && Value.Items? {
        var stripped, room := SignItems(Value.items, Repr - {this});
        SetItems(stripped, room);
      } else if Type == MAP && Value.Nested? {
        var to := Value.inner.SignInto();
        SetNested(to);
      } else {
        SetPlain(Nil);
      }
    }

    /** A cell with a plain value. */
    constructor (name: string, typ: string, value: Value)
      requires !value.Tree? && (value.List? ==> forall i | 0 <= i < |value.items| :: !value.items[i].Tree?)
      ensures Valid() && fresh(Repr)
      ensures Contents() == Attribute(name, typ, value)
    {
      Name, Type, Value := name, typ, ToHeap(value);
      Repr := {this};
      new;
      PlainItems(value, Repr - {this});
    }
  }

  /** A cell that holds any value. Data is a value here, so an attribute set in it becomes a new set
      with the same contents. */
  method NewCell(name: string, typ: string, value: Value) returns (c: Cell)
    ensures c.Valid() && fresh(c.Repr) && c.Contents() == Attribute(name, typ, value)
    decreases value, 1
  {
    hide ItemsValid, ItemsContents, AttributeSet.Valid, AttributeSet.Contents;
    match value {
      case Tree(t) =>
        var s := Build(t);
        c := new Cell(name, typ, Nil);
        c.SetNested(s);
      case List(items) =>
        var held, room := BuildItems(items);
        c := new Cell(name, typ, Nil);
        c.SetItems(held, room);
      case _ =>
        c := new Cell(name, typ, value);
    }
  }

  method BuildItems(items: seq<Value>) returns (held: seq<HeapItem>, ghost room: set<object>)
    ensures fresh(room) && ItemsValid(held, room) && ItemsContents(held, room) == items
    decreases items, 0
  {
    held, room := [], {};
    for i := 0 to |items|
      invariant |held| == i && fresh(room) && ItemsValid(held, room)
      invariant ItemsContents(held, room) == items[..i]
    {
      if items[i].Tree? {
        var s := BuildItem(items[i]);
        AppendItem(held, room, SetItem(s), room + s.Repr);
        held, room := held + [SetItem(s)], room + s.Repr;
      } else {
        AppendItem(held, room, PlainItem(items[i]), room);
        held := held + [PlainItem(items[i])];
      }
    }
  }

  method BuildItem(item: Value) returns (s: AttributeSet)
    requires item.Tree?
    ensures s.Valid() && fresh(s.Repr) && s.Contents() == item.tree
    decreases item, 0
  {
    s := Build(item.tree);
  }

  method Build(a: Attributes) returns (s: AttributeSet)
    ensures s.Valid() && fresh(s.Repr) && s.Contents() == a
    decreases a, 0
  {
    hide Without, AttributeSet.Contents, AttributeSet.Valid, Cell.Contents, Cell.Valid;
    s := new AttributeSet();
    var rest := a.attrs.Keys;
    WithoutAll(a);
    s.NoContents();
    while rest != {}
      invariant rest <= a.attrs.Keys
      invariant s.Valid() && fresh(s.Repr) && s.Contents() == Without(a, rest)
    {
      var k :| k in rest;
      WithoutStep(a, rest, k);
      rest := rest - {k};
      var cell := NewCell(a.attrs[k].name, a.attrs[k].typ, a.attrs[k].value);
      s.Put(k, cell);
    }
  }

  method CopyItems(items: seq<HeapItem>, ghost room: set<object>)
    returns (copies: seq<HeapItem>, ghost newRoom: set<object>)
    requires ItemsValid(items, room)
    ensures fresh(newRoom) && ItemsValid(copies, newRoom)
    ensures ItemsContents(copies, newRoom) == ItemsContents(items, room)
    decreases room, 2
  {
    copies, newRoom := [], {};
    for i := 0 to |items|
      invariant |copies| == i && fresh(newRoom) && ItemsValid(copies, newRoom)
      invariant ItemsContents(copies, newRoom) == ItemsContents(items, room)[..i]
    {
      assert ItemValid(items[i], room);
      match items[i] {
        case PlainItem(v) =>
          AppendItem(copies, newRoom, PlainItem(v), newRoom);
          copies := copies + [PlainItem(v)];
        case SetItem(s) =>
          var t := s.Copy();
          AppendItem(copies, newRoom, SetItem(t), newRoom + t.Repr);
          copies, newRoom := copies + [SetItem(t)], newRoom + t.Repr;
      }
    }
  }

  method SerializeList(items: seq<HeapItem>, ghost room: set<object>) returns (arr: seq<Value>)
    requires ItemsValid(items, room)
    requires forall i | 0 <= i < |items| ::
               var item := ItemsContents(items, room)[i]; item.Tree? ==> CanSerialize(item.tree)
    ensures arr == SerializeItems(ItemsContents(items, room))
    decreases room, 2
  {
    hide CanSerialize, AttributeTree.Serialize;
    arr := [];
    ghost var want := SerializeItems(ItemsContents(items, room));
    for i := 0 to |items|
      invariant arr == want[..i]
    {
      assert ItemValid(items[i], room) && ItemsContents(items, room)[i] == ItemContents(items[i], room);
      assert want[i] == SerializeItem(ItemContents(items[i], room));
      match items[i] {
        case PlainItem(v) =>
          arr := arr + [v];
        case SetItem(s) =>
          var attr := s.Serialize();
          arr := arr + [Data(attr)];
      }
    }
  }

  /** A list and one more item that owns what the room grows by. */
  lemma AppendItem(items: seq<HeapItem>, room: set<object>, item: HeapItem, wider: set<object>)
    requires ItemsValid(items, room) && room <= wider && ItemValid(item, wider)
    requires item.SetItem? ==> item.inner.Repr !! room
    ensures ItemsValid(items + [item], wider)
    ensures ItemsContents(items + [item], wider) == ItemsContents(items, room) + [ItemContents(item, wider)]
  {
    WiderRoom(items, room, wider);
    var all := items + [item];
    forall i | 0 <= i < |all| ensures ItemValid(all[i], wider) {
      assert i < |items| ==> ItemValid(items[i], wider);
    }
    forall i, j | 0 <= i < j < |all| ensures Apart(all[i], all[j], wider) {
      if j < |items| {
        assert Apart(items[i], items[j], wider);
      } else {
        assert ItemValid(items[i], room);
      }
    }
    assert forall i | 0 <= i < |items| :: ItemsContents(items, room)[i] == ItemsContents(items, wider)[i];
  }

  /** Keeps only the attribute sets of an array, each stripped. */
  method SignItems(items: seq<HeapItem>, ghost room: set<object>)
    returns (stripped: seq<HeapItem>, ghost newRoom: set<object>)
    requires ItemsValid(items, room)
    modifies room
    ensures fresh(newRoom - room) && ItemsValid(stripped, newRoom)
    ensures ItemsContents(stripped, newRoom) == SignatureItems(old(ItemsContents(items, room)))
    decreases room, 2
  {
    hide SignatureItems, SignatureItem;
    stripped, newRoom := [], {};
    ghost var before := ItemsContents(items, room);
    NoItemsSigned(before);
    for i := 0 to |items|
      invariant fresh(newRoom - room) && ItemsValid(stripped, newRoom)
      invariant ItemsLeft(items, i, before, room, newRoom)
      invariant ItemsContents(stripped, newRoom) == SignatureItems(before[..i])
    {
      SignItemsStep(before, i);
      if items[i].SetItem? {
        stripped, newRoom := SignItem(items, i, before, room, stripped, newRoom);
      }
    }
    assert before[..|items|] == before;
  }

  method SignItem(items: seq<HeapItem>, i: nat, ghost before: seq<Value>, ghost room: set<object>,
                  built: seq<HeapItem>, ghost builtRoom: set<object>)
    returns (stripped: seq<HeapItem>, ghost newRoom: set<object>)
    requires i < |items| && items[i].SetItem? && ItemsLeft(items, i, before, room, builtRoom)
    requires ItemsValid(built, builtRoom)
    modifies items[i].inner.Repr
    ensures fresh(newRoom - builtRoom - old(items[i].inner.Repr)) && ItemsValid(stripped, newRoom)
    ensures ItemsLeft(items, i + 1, before, room, newRoom)
    ensures before[i].Tree?
    ensures ItemsContents(stripped, newRoom)
            == old(ItemsContents(built, builtRoom)) + [Tree(AttributeTree.Signature(before[i].tree))]
    decreases room, 1
  {
    assert ItemValid(items[i], room) && ItemContents(items[i], room) == before[i];
    assert forall j | i < j < |items| :: Apart(items[i], items[j], room) && ItemValid(items[j], room);
    var t := items[i].inner.SignInto();
    forall j | i < j < |items|
      ensures ItemValid(items[j], room) && ItemContents(items[j], room) == before[j]
      ensures items[j].SetItem? ==> items[j].inner.Repr == old(items[j].inner.Repr) && items[j].inner.Repr !! t.Repr
    {
      assert old(ItemContents(items[j], room)) == before[j];
      if items[j].SetItem? {
        var s := items[j].inner;
        assert old(Apart(items[i], items[j], room)) && old(ItemValid(items[j], room));
        assert old(s.Valid());
        assert old(s in s.Repr && s.Repr !! items[i].inner.Repr);
        assert unchanged(s) && s.Valid() && s.Contents() == old(s.Contents());
      }
    }
    forall j, k | i < j < k < |items| ensures Apart(items[j], items[k], room) {
      assert old(Apart(items[j], items[k], room));
    }
    assert ItemsValid(built, builtRoom);
    AppendItem(built, builtRoom, SetItem(t), builtRoom + t.Repr);
    stripped, newRoom := built + [SetItem(t)], builtRoom + t.Repr;
  }

  /** The items from i on are untouched, and apart from what was built. */
  ghost predicate ItemsLeft(items: seq<HeapItem>, i: nat, before: seq<Value>, room: set<object>, built: set<object>)
    reads room
  {
    && |before| == |items|
    && (forall j | i <= j < |items| :: ItemValid(items[j], room) && ItemContents(items[j], room) == before[j])
    && (forall j | i <= j < |items| && items[j].SetItem? :: items[j].inner in room && items[j].inner.Repr !! built)
    && (forall j, k | i <= j < k < |items| :: Apart(items[j], items[k], room))
  }

  lemma NoItemsSigned(items: seq<Value>)
    ensures SignatureItems(items[..0]) == []
  {
  }

  lemma SignItemsStep(items: seq<Value>, i: nat)
    requires i < |items|
    ensures SignatureItems(items[..i + 1]) == SignatureItems(items[..i]) +
              if items[i].Tree? then [Tree(AttributeTree.Signature(items[i].tree))] else []
  {
    assert items[..i + 1][..i] == items[..i];
  }

  function ToHeap(value: Value): HeapValue {
    if value.List? then Items(seq(|value.items|, i requires 0 <= i < |value.items| => PlainItem(value.items[i])))
    else Plain(value)
  }

  class AttributeSet {
    var cells: map<string, Cell>
    ghost var Repr: set<object>

    constructor ()
      ensures Valid() && fresh(Repr) && cells == map[]
    {
      cells := map[];
      Repr := {this};
    }

    ghost predicate Valid()
      reads this, Repr
      ensures Valid() ==> this in Repr
      decreases Repr, 0
    {
      && this in Repr
      && (forall k | k in cells :: cells[k] in Repr && cells[k].Repr <= Repr - {this} && cells[k].Valid())
      && (forall j, k | j in cells && k in cells && j != k :: cells[j].Repr !! cells[k].Repr)
    }

    function Contents(): Attributes
      requires Valid()
      reads this, Repr
      decreases Repr, 0
    {
      Attributes(map k | k in cells :: cells[k].Contents())
    }

    lemma ContentsAt()
      requires Valid()
      ensures Contents().attrs.Keys == cells.Keys
      ensures forall k | k in cells ::
                && cells[k] in Repr && cells[k].Repr <= Repr - {this} && cells[k].Valid()
                && Contents().attrs[k] == cells[k].Contents()
      ensures forall j, k | j in cells && k in cells && j != k :: cells[j].Repr !! cells[k].Repr
    {
    }

    lemma NoContents()
      requires Valid() && cells == map[]
      ensures Contents() == Attributes(map[])
    {
      assert Contents().attrs == map[];
    }

    /** m[k] = cell, for a cell of its own. */
    method Put(k: string, cell: Cell)
      requires Valid() && cell.Valid() && cell.Repr !! Repr
      modifies this
      ensures Valid() && Repr == old(Repr) + cell.Repr && cells == old(cells)[k := cell]
      ensures Contents() == Attributes(old(Contents()).attrs[k := cell.Contents()])
    {
      ghost var before := Contents();
      cells := cells[k := cell];
      Repr := Repr + cell.Repr;
      SameExcept(before, k);
    }

    /** Bookkeeping after the cell at k changed in place and took over only new objects. */
    twostate lemma CellChanged(k: string)
      requires old(Valid()) && k in cells && unchanged(this)
      requires cells[k].Valid() && fresh(cells[k].Repr - old(cells[k].Repr))
      requires forall o: object | o in old(Repr) && o !in old(cells[k].Repr) :: unchanged(o)
      ensures forall j | j in cells && j != k :: cells[j].Valid() && cells[j].Contents() == old(cells[j].Contents())
      ensures forall j | j in cells && j != k :: cells[j].Repr == old(cells[j].Repr)
      ensures this !in cells[k].Repr
      ensures forall i, j | i in cells && j in cells && i != j :: cells[i].Repr !! cells[j].Repr
    {
    }

    ghost method Absorb(k: string)
      requires this in Repr && k in cells && this !in cells[k].Repr
      requires forall j | j in cells ::
                 cells[j] in Repr && cells[j].Valid() && (j != k ==> cells[j].Repr <= Repr - {this})
      requires forall i, j | i in cells && j in cells && i != j :: cells[i].Repr !! cells[j].Repr
      modifies this`Repr
      ensures Valid() && Repr == old(Repr) + cells[k].Repr
      ensures forall j | j in cells :: cells[j].Contents() == old(cells[j].Contents())
    {
      Repr := Repr + cells[k].Repr;
    }

    method Serialize() returns (to: AttributeValue)
      requires Valid() && CanSerialize(Contents())
      ensures to == AttributeTree.Serialize(Contents())
      decreases Repr, 0
    {
      hide SerializedExcept, IsSerialized, SerializeOne;
      hide AttributeSet.Contents, AttributeSet.Valid, Cell.Contents, Cell.Valid;
      ghost var before := Contents();
      ContentsAt();
      to := AttributeValue(map[]);
      var rest := cells.Keys;
      AllSerialized(before);
      while rest != {}
        invariant rest <= cells.Keys && to == SerializedExcept(before, rest)
      {
        var k :| k in rest;
        SerializeStep(before, rest, k);
        rest := rest - {k};
        if Serializable(cells[k]) {
          SerializableCell(cells[k]);
          var d := cells[k].Serialize();
          to := AttributeValue(to.data[k := d]);
        } else {
          SerializableCell(cells[k]);
        }
      }
    }

    /** gob encoding and decoding: a deep copy. */
    method Copy() returns (c: AttributeSet)
      requires Valid()
      ensures c.Valid() && fresh(c.Repr) && c.Contents() == Contents()
      decreases Repr, 0
    {
      hide Without, AttributeSet.Contents, AttributeSet.Valid, Cell.Contents, Cell.Valid;
      ghost var before := Contents();
      ContentsAt();
      c := new AttributeSet();
      var rest := cells.Keys;
      WithoutAll(before);
      c.NoContents();
      while rest != {}
        invariant rest <= cells.Keys
        invariant c.Valid() && fresh(c.Repr) && c.Contents() == Without(before, rest)
      {
        var k :| k in rest;
        WithoutStep(before, rest, k);
        rest := rest - {k};
        assert cells[k].Contents() == before.attrs[k];
        var cell := cells[k].Copy();
        c.Put(k, cell);
      }
    }

    /** The recursive walk of Signature: it overwrites values here and moves the cells over. */
    method SignInto() returns (to: AttributeSet)
      requires Valid()
      modifies Repr
      ensures to.Valid() && fresh(to.Repr - old(Repr)) && to.Contents() == AttributeTree.Signature(old(Contents()))
      decreases Repr, 0
    {
      hide SignedExcept, IsSigned, SignatureOne, Waiting;
      hide AttributeSet.Contents, AttributeSet.Valid, Cell.Contents, Cell.Valid;
      ghost var before, room := Contents(), Repr;
      ContentsAt();
      to := new AttributeSet();
      AllWaiting(before, to);
      var rest := cells.Keys;
      AllSigned(before);
      to.NoContents();
      while rest != {}
        invariant rest <= cells.Keys && cells == old(cells) && room == old(Repr)
        invariant to.Valid() && fresh(to.Repr - room)
        invariant Waiting(cells, rest, before, room - {this}, to)
        invariant this !in to.Repr && to.Contents() == SignedExcept(before, rest)
      {
        var k :| k in rest;
        SignStep(before, rest, k);
        WaitingRoom(cells, rest, k, before, room - {this}, to);
        SignNext(cells, rest, k, before, room - {this}, to);
        rest := rest - {k};
      }
    }

    lemma AllWaiting(before: Attributes, to: AttributeSet)
      requires Valid() && before == Contents() && to.Repr !! Repr
      ensures Waiting(cells, cells.Keys, before, Repr - {this}, to)
    {
      ContentsAt();
    }

    /** A stripped deep copy. There is no modifies clause: the receiver and everything below it stays
        as it was, although the walk overwrites values. */
    method Signature() returns (signature: AttributeSet)
      requires Valid()
      ensures signature.Valid() && fresh(signature.Repr)
      ensures signature.Contents() == AttributeTree.Signature(Contents())
      ensures Contents() == old(Contents())
    {
      var cpy := Copy();
      signature := cpy.SignInto();
    }

    /** One entry of the data meets the attribute under its key. Scalars get a new cell; everything
        else changes the cell that is there. */
    method Visit(k: string, d: Value, show: Value -> string) returns (changed: bool)
      requires Valid() && k in cells && CanFillOne(d, cells[k].Contents())
      modifies Repr
      ensures Valid() && fresh(Repr - old(Repr))
      ensures Contents() == Attributes(old(Contents()).attrs[k := FillOne(d, old(cells[k].Contents()))])
      ensures changed == ChangedOne(show, d, old(cells[k].Contents()))
      decreases d, 2
    {
      hide FillOne, ChangedOne, CanFillOne;
      if IsScalarDatum(d) {
        ScalarFills(d, cells[k].Contents(), show);
        changed := show(d) != show(cells[k].Contents().value);
        var replaced := NewCell(cells[k].Name, cells[k].Type, d);
        Put(k, replaced);
      } else {
        changed := VisitInPlace(k, d, show);
      }
    }

    method VisitInPlace(k: string, d: Value, show: Value -> string) returns (changed: bool)
      requires Valid() && k in cells && !IsScalarDatum(d) && CanFillOne(d, cells[k].Contents())
      modifies Repr
      ensures Valid() && fresh(Repr - old(Repr)) && cells == old(cells)
      ensures Contents() == Attributes(old(Contents()).attrs[k := FillOne(d, old(cells[k].Contents()))])
      ensures changed == ChangedOne(show, d, old(cells[k].Contents()))
      decreases d, 1
    {
      hide FillOne, ChangedOne, CanFillOne;
      ghost var before := Contents();
      var cell := cells[k];
      assert before.attrs[k] == cell.Contents();
      changed := cell.FillIn(d, show);
      CellChanged(k);
      Absorb(k);
      SameExcept(before, k);
    }

    /** All other attributes are as they were. */
    lemma SameExcept(before: Attributes, k: string)
      requires Valid() && k in cells && before.attrs.Keys + {k} == cells.Keys
      requires forall j | j in cells && j != k :: cells[j].Contents() == before.attrs[j]
      ensures Contents() == Attributes(before.attrs[k := cells[k].Contents()])
    {
      assert Contents().attrs == before.attrs[k := cells[k].Contents()];
    }

    method Deserialize(data: AttributeValue, show: Value -> string) returns (changed: bool)
      requires Valid() && CanFill(data, Contents())
      modifies Repr
      ensures Valid() && fresh(Repr - old(Repr))
      ensures Contents() == Fill(data, old(Contents()))
      ensures changed == Changed(show, data, old(Contents()))
      decreases data
    {
      hide FillOne, ChangedOne, CanFillOne, FilledExcept, ChangedExcept, Fill, Changed;
      ghost var before := Contents();
      changed := false;
      var rest := data.data.Keys;
      NothingVisited(data, before, show);
      while rest != {}
        invariant rest <= data.data.Keys
        invariant Valid() && fresh(Repr - old(Repr))
        invariant Contents() == FilledExcept(data, before, rest)
        invariant changed <==> ChangedExcept(show, data, before, rest)
      {
        var k :| k in rest;
        VisitStep(data, before, rest, k, show);
        rest := rest - {k};
        if k in cells {
          assert cells[k].Contents() == Contents().attrs[k];
          var one := Visit(k, data.data[k], show);
          changed := changed || one;
        }
      }
      AllVisited(data, before, show);
    }
  }

  function Without(a: Attributes, rest: set<string>): Attributes {
    Attributes(map k | k in a.attrs && k !in rest :: a.attrs[k])
  }

  lemma WithoutStep(a: Attributes, rest: set<string>, k: string)
    requires k in rest && rest <= a.attrs.Keys
    ensures Without(a, rest - {k}) == Attributes(Without(a, rest).attrs[k := a.attrs[k]])
  {
    assert Without(a, rest - {k}).attrs == Without(a, rest).attrs[k := a.attrs[k]];
  }

  lemma WithoutAll(a: Attributes)
    ensures Without(a, {}) == a && Without(a, a.attrs.Keys) == Attributes(map[])
  {
    assert Without(a, {}).attrs == a.attrs;
    assert Without(a, a.attrs.Keys).attrs == map[];
  }

  /** The cells the walk has not reached are untouched, and apart from what it has built. */
  ghost predicate Waiting(cells: map<string, Cell>, rest: set<string>, before: Attributes,
                          room: set<object>, to: AttributeSet)
    reads room, to
  {
    && rest <= cells.Keys && rest <= before.attrs.Keys
    && (forall j | j in rest :: cells[j] in room && cells[j].Repr <= room)
    && (forall j | j in rest :: cells[j].Valid() && cells[j].Contents() == before.attrs[j] && cells[j].Repr !! to.Repr)
    && (forall i, j | i in rest && j in rest && i != j :: cells[i].Repr !! cells[j].Repr)
  }

  lemma WaitingRoom(cells: map<string, Cell>, rest: set<string>, k: string, before: Attributes,
                    room: set<object>, to: AttributeSet)
    requires k in rest && Waiting(cells, rest, before, room, to)
    ensures k in cells && cells[k].Repr <= room
  {
  }

  /** Strip one cell in place and move it over, if its type and value have a signature. */
  method SignCell(cell: Cell, k: string, to: AttributeSet)
    requires cell.Valid() && to.Valid() && cell.Repr !! to.Repr
    modifies cell.Repr, to
    ensures to.Valid() && fresh(to.Repr - old(to.Repr) - old(cell.Repr))
    ensures to.Contents() == if IsSigned(old(cell.Contents()))
                             then Attributes(old(to.Contents()).attrs[k := SignatureOne(old(cell.Contents()))])
                             else old(to.Contents())
    decreases cell.Repr, 1
  {
    hide SignatureOne, IsSigned, Signable, Cell.Valid, Cell.Contents, AttributeSet.Valid, AttributeSet.Contents;
    SignableCell(cell);
    if Signable(cell) {
      cell.Sign();
      to.Put(k, cell);
    }
  }

  method SignNext(cells: map<string, Cell>, rest: set<string>, k: string, ghost before: Attributes,
                  ghost room: set<object>, to: AttributeSet)
    requires k in rest && Waiting(cells, rest, before, room, to) && to.Valid()
    modifies cells[k].Repr, to
    ensures to.Valid() && fresh(to.Repr - old(to.Repr) - old(cells[k].Repr))
    ensures Waiting(cells, rest - {k}, before, room, to)
    ensures to.Contents() == if IsSigned(before.attrs[k])
                             then Attributes(old(to.Contents()).attrs[k := SignatureOne(before.attrs[k])])
                             else old(to.Contents())
    decreases room, 2
  {
    hide SignatureOne, IsSigned, Cell.Valid, Cell.Contents, AttributeSet.Valid, AttributeSet.Contents;
    SignCell(cells[k], k, to);
  }

  predicate Signable(c: Cell)
    reads c
  {
    IsScalarType(c.Type) || (c.Type == ARRAY && c.Value.Items?) || (c.Type == MAP && c.Value.Nested?)
  }

  lemma SignableCell(c: Cell)
    requires c.Valid()
    ensures Signable(c) <==> IsSigned(c.Contents())
  {
  }

  predicate Serializable(c: Cell)
    reads c
  {
    IsScalarType(c.Type) || c.Type == ARRAY || (c.Type == MAP && c.Value.Nested?)
  }

  lemma SerializableCell(c: Cell)
    requires c.Valid()
    ensures Serializable(c) <==> IsSerialized(c.Contents())
  {
  }

  function SerializedExcept(a: Attributes, rest: set<string>): AttributeValue {
    AttributeValue(map k | k in a.attrs && IsSerialized(a.attrs[k]) && k !in rest :: SerializeOne(a.attrs[k]))
  }

  lemma SerializeStep(a: Attributes, rest: set<string>, k: string)
    requires k in rest && rest <= a.attrs.Keys && CanSerialize(a)
    ensures CanSerializeOne(a.attrs[k])
    ensures SerializedExcept(a, rest - {k})
            == if IsSerialized(a.attrs[k])
               then AttributeValue(SerializedExcept(a, rest).data[k := SerializeOne(a.attrs[k])])
               else SerializedExcept(a, rest)
  {
    hide SerializeOne, IsSerialized;
    if IsSerialized(a.attrs[k]) {
      assert SerializedExcept(a, rest - {k}).data == SerializedExcept(a, rest).data[k := SerializeOne(a.attrs[k])];
    } else {
      assert SerializedExcept(a, rest - {k}).data == SerializedExcept(a, rest).data;
    }
  }

  lemma AllSerialized(a: Attributes)
    ensures SerializedExcept(a, {}) == AttributeTree.Serialize(a)
    ensures SerializedExcept(a, a.attrs.Keys) == AttributeValue(map[])
  {
    hide SerializeOne, IsSerialized;
    assert SerializedExcept(a, {}).data == AttributeTree.Serialize(a).data;
    assert SerializedExcept(a, a.attrs.Keys).data == map[];
  }

  function SignedExcept(a: Attributes, rest: set<string>): Attributes {
    Attributes(map k | k in a.attrs && IsSigned(a.attrs[k]) && k !in rest :: SignatureOne(a.attrs[k]))
  }

  lemma SignStep(a: Attributes, rest: set<string>, k: string)
    requires k in rest && rest <= a.attrs.Keys
    ensures SignedExcept(a, rest - {k})
            == if IsSigned(a.attrs[k]) then Attributes(SignedExcept(a, rest).attrs[k := SignatureOne(a.attrs[k])])
               else SignedExcept(a, rest)
  {
    hide SignatureOne;
    if IsSigned(a.attrs[k]) {
      assert SignedExcept(a, rest - {k}).attrs == SignedExcept(a, rest).attrs[k := SignatureOne(a.attrs[k])];
    } else {
      assert SignedExcept(a, rest - {k}).attrs == SignedExcept(a, rest).attrs;
    }
  }

  lemma AllSigned(a: Attributes)
    ensures SignedExcept(a, {}) == AttributeTree.Signature(a)
    ensures SignedExcept(a, a.attrs.Keys) == Attributes(map[])
  {
    hide SignatureOne;
    assert SignedExcept(a, {}).attrs == AttributeTree.Signature(a).attrs;
    assert SignedExcept(a, a.attrs.Keys).attrs == map[];
  }

  lemma ScalarFills(d: Value, x: Attribute, show: Value -> string)
    requires IsScalarDatum(d)
    ensures FillOne(d, x) == x.(value := d) && ChangedOne(show, d, x) == (show(d) != show(x.value))
  {
  }

  /** Part of the way through the data: the keys in `rest` are still to come. */
  function FilledExcept(data: AttributeValue, to: Attributes, rest: set<string>): Attributes {
    Attributes(map k | k in to.attrs ::
                 if k in data.data && k !in rest then FillOne(data.data[k], to.attrs[k]) else to.attrs[k])
  }

  predicate ChangedExcept(show: Value -> string, data: AttributeValue, to: Attributes, rest: set<string>) {
    exists k | k in data.data && k !in rest && k in to.attrs :: ChangedOne(show, data.data[k], to.attrs[k])
  }

  lemma NothingVisited(data: AttributeValue, to: Attributes, show: Value -> string)
    ensures FilledExcept(data, to, data.data.Keys) == to
    ensures !ChangedExcept(show, data, to, data.data.Keys)
  {
    assert FilledExcept(data, to, data.data.Keys).attrs == to.attrs;
  }

  lemma AllVisited(data: AttributeValue, to: Attributes, show: Value -> string)
    ensures FilledExcept(data, to, {}) == Fill(data, to)
    ensures ChangedExcept(show, data, to, {}) == Changed(show, data, to)
  {
    assert FilledExcept(data, to, {}).attrs == Fill(data, to).attrs;
  }

  /** What visiting one more key does, whichever it is. */
  lemma VisitStep(data: AttributeValue, to: Attributes, rest: set<string>, k: string, show: Value -> string)
    requires k in rest && rest <= data.data.Keys && CanFill(data, to)
    ensures FilledExcept(data, to, rest).attrs.Keys == to.attrs.Keys
    ensures k in to.attrs ==>
              && FilledExcept(data, to, rest).attrs[k] == to.attrs[k]
              && CanFillOne(data.data[k], to.attrs[k])
              && FilledExcept(data, to, rest - {k})
                 == Attributes(FilledExcept(data, to, rest).attrs[k := FillOne(data.data[k], to.attrs[k])])
              && ChangedExcept(show, data, to, rest - {k})
                 == (ChangedExcept(show, data, to, rest) || ChangedOne(show, data.data[k], to.attrs[k]))
    ensures k !in to.attrs ==>
              && FilledExcept(data, to, rest - {k}) == FilledExcept(data, to, rest)
              && ChangedExcept(show, data, to, rest - {k}) == ChangedExcept(show, data, to, rest)
  {
    hide FillOne, ChangedOne, CanFillOne;
    if k in to.attrs {
      assert FilledExcept(data, to, rest - {k}).attrs
          == FilledExcept(data, to, rest).attrs[k := FillOne(data.data[k], to.attrs[k])];
    } else {
      assert FilledExcept(data, to, rest - {k}).attrs == FilledExcept(data, to, rest).attrs;
    }
  }

  function RebuiltExcept(sig: AttributeValue, from: AttributeValue, rest: set<string>): Attributes {
    Attributes(map k | k in Rebuild(sig, from).attrs && k !in rest :: Rebuild(sig, from).attrs[k])
  }

  lemma RebuildStep(sig: AttributeValue, from: AttributeValue, rest: set<string>, k: string)
    requires k in rest && rest <= sig.data.Keys
    ensures k in Rebuild(sig, from).attrs <==> sig.data[k].Raw?
    ensures sig.data[k].Raw? ==>
              var f := sig.data[k].fields;
              Rebuild(sig, from).attrs[k] == Attribute(TextField(f, "name"), TextField(f, "type"),
                                                       if k in from.data then from.data[k] else Nil)
    ensures RebuiltExcept(sig, from, rest - {k}) ==
              if k in Rebuild(sig, from).attrs
              then Attributes(RebuiltExcept(sig, from, rest).attrs[k := Rebuild(sig, from).attrs[k]])
              else RebuiltExcept(sig, from, rest)
  {
    hide TextField;
    if k in Rebuild(sig, from).attrs {
      assert RebuiltExcept(sig, from, rest - {k}).attrs
          == RebuiltExcept(sig, from, rest).attrs[k := Rebuild(sig, from).attrs[k]];
    } else {
      assert RebuiltExcept(sig, from, rest - {k}).attrs == RebuiltExcept(sig, from, rest).attrs;
    }
  }

  /** Attributes for the generic maps in `sig`, holding the data as it is. */
  method RebuildSet(sig: AttributeValue, from: AttributeValue) returns (attrs: AttributeSet)
    ensures attrs.Valid() && fresh(attrs.Repr) && attrs.Contents() == Rebuild(sig, from)
  {
    hide RebuiltExcept, Rebuild, TextField, AttributeSet.Contents, AttributeSet.Valid, Cell.Contents, Cell.Valid;
    attrs := new AttributeSet();
    attrs.NoContents();
    var rest := sig.data.Keys;
    RebuiltNone(sig, from);
    while rest != {}
      invariant rest <= sig.data.Keys
      invariant attrs.Valid() && fresh(attrs.Repr)
      invariant attrs.Contents() == RebuiltExcept(sig, from, rest)
    {
      var k :| k in rest;
      RebuildStep(sig, from, rest, k);
      rest := rest - {k};
      if sig.data[k].Raw? {
        var f := sig.data[k].fields;
        var datum := if k in from.data then from.data[k] else Nil;
        var cell := NewCell(TextField(f, "name"), TextField(f, "type"), datum);
        attrs.Put(k, cell);
      }
    }
  }

  lemma RebuiltNone(sig: AttributeValue, from: AttributeValue)
    ensures RebuiltExcept(sig, from, sig.data.Keys) == Attributes(map[])
    ensures RebuiltExcept(sig, from, {}) == Rebuild(sig, from)
  {
    assert RebuiltExcept(sig, from, sig.data.Keys).attrs == map[];
    assert RebuiltExcept(sig, from, {}).attrs == Rebuild(sig, from).attrs;
  }
}
