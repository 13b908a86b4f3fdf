/** Dashboard import: four tables, three nested insert loops, one transaction. */
module DashboardImport {
  import opened Common
  import opened Transactions

  // ---------- tables ----------

  /** The columns that are copied; for tabs and boards `name` is under a unique index. */
  datatype Fields = Fields(name: string, rest: string)

  datatype Row = Row(id: int, parent: int, fields: Fields)

  /** Rows in insertion order. Boards have no parent; theirs is 0. */
  datatype Tables = Tables(boards: seq<Row>, tabs: seq<Row>, cards: seq<Row>, items: seq<Row>)

  function Ids(rows: seq<Row>): seq<int> {
    seq(|rows|, i requires 0 <= i < |rows| => rows[i].id)
  }

  predicate UniqueIds(rows: seq<Row>) {
    forall i, j | 0 <= i < j < |rows| :: rows[i].id != rows[j].id
  }

  predicate Linked(rows: seq<Row>, parents: seq<Row>) {
    forall i | 0 <= i < |rows| :: rows[i].parent in Ids(parents)
  }

  /** Primary and foreign keys hold. */
  predicate Valid(t: Tables) {
    && UniqueIds(t.boards) && UniqueIds(t.tabs) && UniqueIds(t.cards) && UniqueIds(t.items)
    && Linked(t.tabs, t.boards) && Linked(t.cards, t.tabs) && Linked(t.items, t.cards)
  }

  // ---------- reading a board with everything below it ----------

  datatype CardTree = CardTree(fields: Fields, items: seq<Fields>)
  datatype TabTree = TabTree(fields: Fields, cards: seq<CardTree>)
  datatype BoardTree = BoardTree(fields: Fields, tabs: seq<TabTree>)

  function ReadItems(items: seq<Row>, card: int): seq<Fields> {
    if items == [] then []
    else
      var last := items[|items| - 1];
      ReadItems(items[..|items| - 1], card) + if last.parent == card then [last.fields] else []
  }

  function ReadCards(cards: seq<Row>, items: seq<Row>, tab: int): seq<CardTree> {
    if cards == [] then []
    else
      var last := cards[|cards| - 1];
      ReadCards(cards[..|cards| - 1], items, tab) +
      if last.parent == tab then [CardTree(last.fields, ReadItems(items, last.id))] else []
  }

  function ReadTabs(tabs: seq<Row>, cards: seq<Row>, items: seq<Row>, board: int): seq<TabTree> {
    if tabs == [] then []
    else
      var last := tabs[|tabs| - 1];
      ReadTabs(tabs[..|tabs| - 1], cards, items, board) +
      if last.parent == board then [TabTree(last.fields, ReadCards(cards, items, last.id))] else []
  }

  function ReadBoards(boards: seq<Row>, t: Tables, id: int): Option<BoardTree> {
    if boards == [] then None
    else
      var last := boards[|boards| - 1];
      if last.id == id then Some(BoardTree(last.fields, ReadTabs(t.tabs, t.cards, t.items, id)))
      else ReadBoards(boards[..|boards| - 1], t, id)
  }

  /** What GetById returns, with its preloads. */
  function ReadBoard(t: Tables, id: int): Option<BoardTree> {
    ReadBoards(t.boards, t, id)
  }

  /** Reading a longer table gives what was read before and then what the new rows give: the items of
      a card, the cards of a tab and the tabs of a board, each with everything below it. */
  lemma ReadInOrder(rows: seq<Row>, row: Row, t: Tables, parent: int)
    ensures ReadItems(rows + [row], parent)
            == ReadItems(rows, parent) + if row.parent == parent then [row.fields] else []
    ensures ReadCards(rows + [row], t.items, parent)
            == ReadCards(rows, t.items, parent) +
               if row.parent == parent then [CardTree(row.fields, ReadItems(t.items, row.id))] else []
    ensures ReadTabs(rows + [row], t.cards, t.items, parent)
            == ReadTabs(rows, t.cards, t.items, parent) +
               if row.parent == parent then [TabTree(row.fields, ReadCards(t.cards, t.items, row.id))] else []
  {
    assert (rows + [row])[..|rows|] == rows;
  }

  // ---------- the objects handed to Import ----------

  class Item {
    var Id: int
    var CardId: int
    const Data: Fields
    const EntityId: Option<string>
  }

  class Card {
    var Id: int
    var TabId: int
    const Data: Fields
    const EntityId: Option<string>
    const Items: seq<Item>
  }

  class Tab {
    var Id: int
    var DashboardId: int
    const Data: Fields
    const Cards: seq<Card>
  }

  class Board {
    var Id: int
    var Name: string
    const Rest: string
    const Tabs: seq<Tab>
  }

  function CardsOf(tabs: seq<Tab>): set<Card> {
    set t, c | t in tabs && c in t.Cards :: c
  }

  function ItemsOf(cards: set<Card>): set<Item> {
    set c, i | c in cards && i in c.Items :: i
  }

  lemma ItemOf(c: Card, i: Item)
    requires i in c.Items
    ensures i in ItemsOf({c})
  {
    assert c in {c};
  }

  function CardContent(c: Card): CardTree {
    CardTree(c.Data, seq(|c.Items|, i requires 0 <= i < |c.Items| => c.Items[i].Data))
  }

  function TabContent(tab: Tab): TabTree {
    TabTree(tab.Data, seq(|tab.Cards|, i requires 0 <= i < |tab.Cards| => CardContent(tab.Cards[i])))
  }

  function BoardContent(name: string, b: Board): BoardTree {
    BoardTree(Fields(name, b.Rest), seq(|b.Tabs|, i requires 0 <= i < |b.Tabs| => TabContent(b.Tabs[i])))
  }

  // ---------- growing tables ----------

  /** Rows are added at the end, none of them below the parents in `parents`. */
  predicate Appends(rows: seq<Row>, rows': seq<Row>, parents: seq<Row>) {
    && rows <= rows'
    && forall i | |rows| <= i < |rows'| :: rows'[i].parent !in Ids(parents)
  }

  /** No old row changes and nothing is added below an old row. */
  predicate Grown(t: Tables, u: Tables) {
    && t.boards <= u.boards && Appends(t.tabs, u.tabs, t.boards)
    && Appends(t.cards, u.cards, t.tabs) && Appends(t.items, u.items, t.cards)
  }

  lemma {:induction false} ItemsUnaffected(items: seq<Row>, items': seq<Row>, card: int)
    requires items <= items' && forall i | |items| <= i < |items'| :: items'[i].parent != card
    ensures ReadItems(items', card) == ReadItems(items, card)
  {
    if |items'| > |items| {
      ItemsUnaffected(items, items'[..|items'| - 1], card);
    } else {
      assert items' == items;
    }
  }

  lemma {:induction false} CardsUnaffected(cards: seq<Row>, t: seq<Row>, items: seq<Row>, items': seq<Row>, tab: int)
    requires Appends(items, items', t) && forall i | 0 <= i < |cards| :: cards[i].id in Ids(t)
    ensures ReadCards(cards, items', tab) == ReadCards(cards, items, tab)
  {
    if cards != [] {
      CardsUnaffected(cards[..|cards| - 1], t, items, items', tab);
      ItemsUnaffected(items, items', cards[|cards| - 1].id);
    }
  }

  lemma {:induction false} CardsGrown(t: Tables, u: Tables, cards': seq<Row>, tab: int)
    requires Grown(t, u) && t.cards <= cards' <= u.cards && tab in Ids(t.tabs)
    ensures ReadCards(cards', u.items, tab) == ReadCards(t.cards, t.items, tab)
  {
    if |cards'| > |t.cards| {
      CardsGrown(t, u, cards'[..|cards'| - 1], tab);
    } else {
      assert cards' == t.cards;
      OwnIds(t.cards);
      CardsUnaffected(t.cards, t.cards, t.items, u.items, tab);
    }
  }

  lemma OwnIds(rows: seq<Row>)
    ensures forall i | 0 <= i < |rows| :: rows[i].id in Ids(rows)
  {
    forall i | 0 <= i < |rows| ensures rows[i].id in Ids(rows) {
      assert Ids(rows)[i] == rows[i].id;
    }
  }

  lemma {:induction false} TabsUnaffected(t: Tables, u: Tables, tabs: seq<Row>, board: int)
    requires Grown(t, u) && forall i | 0 <= i < |tabs| :: tabs[i].id in Ids(t.tabs)
    ensures ReadTabs(tabs, u.cards, u.items, board) == ReadTabs(tabs, t.cards, t.items, board)
  {
    if tabs != [] {
      TabsUnaffected(t, u, tabs[..|tabs| - 1], board);
      CardsGrown(t, u, u.cards, tabs[|tabs| - 1].id);
    }
  }

  lemma {:induction false} TabsGrown(t: Tables, u: Tables, tabs': seq<Row>, board: int)
    requires Grown(t, u) && t.tabs <= tabs' <= u.tabs && board in Ids(t.boards)
    ensures ReadTabs(tabs', u.cards, u.items, board) == ReadTabs(t.tabs, t.cards, t.items, board)
  {
    if |tabs'| > |t.tabs| {
      TabsGrown(t, u, tabs'[..|tabs'| - 1], board);
    } else {
      assert tabs' == t.tabs;
      OwnIds(t.tabs);
      TabsUnaffected(t, u, t.tabs, board);
    }
  }

  /** Every board that was there reads as before. */
  lemma OldBoardsUnchanged(t: Tables, u: Tables, id: int)
    requires Grown(t, u) && UniqueIds(u.boards) && id in Ids(t.boards)
    ensures ReadBoard(u, id) == ReadBoard(t, id)
  {
    TabsGrown(t, u, u.tabs, id);
    var i :| 0 <= i < |t.boards| && t.boards[i].id == id;
    FindBoard(u.boards, u, i);
    FindBoard(t.boards, t, i);
  }

  lemma {:induction false} FindBoard(boards: seq<Row>, t: Tables, i: nat)
    requires UniqueIds(boards) && i < |boards|
    ensures ReadBoards(boards, t, boards[i].id)
            == Some(BoardTree(boards[i].fields, ReadTabs(t.tabs, t.cards, t.items, boards[i].id)))
  {
    if i < |boards| - 1 {
      FindBoard(boards[..|boards| - 1], t, i);
    }
  }

  // ---------- inserting ----------

  predicate IsTaken(rows: seq<Row>, parent: int, name: string) {
    exists i | 0 <= i < |rows| :: rows[i].parent == parent && rows[i].fields.name == name
  }

  /** gorm's Create: a zero id asks for a fresh one. The tables refuse a used id, a missing parent and
      a repeated name under a unique index. */
  method Insert(rows: seq<Row>, parents: seq<int>, id0: int, parent: int, fields: Fields, uniqueName: bool,
                reliable: bool)
    returns (rows': seq<Row>, id: int, outcome: Outcome)
    ensures reliable ==>
              (outcome == Done <==>
                 && (id0 == 0 || id0 !in Ids(rows)) && parent in parents
                 && !(uniqueName && IsTaken(rows, parent, fields.name)))
    ensures outcome != Done ==> rows' == rows
    ensures outcome == Done ==>
              && rows' == rows + [Row(id, parent, fields)]
              && id !in Ids(rows) && (id0 == 0 ==> id > 0) && (id0 != 0 ==> id == id0)
              && parent in parents
              && !(uniqueName && IsTaken(rows, parent, fields.name))
  {
    rows', id, outcome := rows, id0, Failed;
    if (id0 != 0 && id0 in Ids(rows)) || parent !in parents || (uniqueName && IsTaken(rows, parent, fields.name)) {
      return;
    }
    var luck := Statement(reliable);
    if luck != Done {
      outcome := luck;
      return;
    }
    if id0 == 0 {
      ghost var g := FreshId(Ids(rows));
      assert g > 0 && g !in Ids(rows);
      id :| id > 0 && id !in Ids(rows);
    }
    rows', outcome := rows + [Row(id, parent, fields)], Done;
  }

  lemma AddId(rows: seq<Row>, row: Row)
    ensures Ids(rows + [row]) == Ids(rows) + [row.id]
    ensures UniqueIds(rows) && row.id !in Ids(rows) ==> UniqueIds(rows + [row])
  {
    if UniqueIds(rows) && row.id !in Ids(rows) {
      OwnIds(rows);
    }
  }

  lemma AddItem(t: Tables, row: Row)
    requires Valid(t) && row.id !in Ids(t.items) && row.parent in Ids(t.cards)
    ensures Valid(t.(items := t.items + [row]))
    ensures ReadItems(t.items + [row], row.parent) == ReadItems(t.items, row.parent) + [row.fields]
  {
    AddId(t.items, row);
  }

  lemma AddCard(t: Tables, row: Row)
    requires Valid(t) && row.id !in Ids(t.cards) && row.parent in Ids(t.tabs)
    ensures Valid(t.(cards := t.cards + [row])) && row.id in Ids(t.cards + [row])
    ensures ReadItems(t.items, row.id) == []
  {
    AddId(t.cards, row);
    NoItems(t.items, row.id);
  }

  lemma AddTab(t: Tables, row: Row)
    requires Valid(t) && row.id !in Ids(t.tabs) && row.parent in Ids(t.boards)
    ensures Valid(t.(tabs := t.tabs + [row])) && row.id in Ids(t.tabs + [row])
    ensures ReadCards(t.cards, t.items, row.id) == []
  {
    AddId(t.tabs, row);
    NoCards(t.cards, t.items, row.id);
  }

  lemma AddBoard(t: Tables, row: Row)
    requires Valid(t) && row.id !in Ids(t.boards)
    ensures Valid(t.(boards := t.boards + [row])) && row.id in Ids(t.boards + [row])
    ensures ReadTabs(t.tabs, t.cards, t.items, row.id) == []
  {
    AddId(t.boards, row);
    NoTabs(t.tabs, t.cards, t.items, row.id);
  }

  lemma {:induction false} NoItems(items: seq<Row>, card: int)
    requires forall i | 0 <= i < |items| :: items[i].parent != card
    ensures ReadItems(items, card) == []
  {
    if items != [] { NoItems(items[..|items| - 1], card); }
  }

  lemma {:induction false} NoCards(cards: seq<Row>, items: seq<Row>, tab: int)
    requires forall i | 0 <= i < |cards| :: cards[i].parent != tab
    ensures ReadCards(cards, items, tab) == []
  {
    if cards != [] { NoCards(cards[..|cards| - 1], items, tab); }
  }

  lemma {:induction false} NoTabs(tabs: seq<Row>, cards: seq<Row>, items: seq<Row>, board: int)
    requires forall i | 0 <= i < |tabs| :: tabs[i].parent != board
    ensures ReadTabs(tabs, cards, items, board) == []
  {
    if tabs != [] { NoTabs(tabs[..|tabs| - 1], cards, items, board); }
  }

  // ---------- the nested loops ----------

  predicate AllBelow(rows: seq<Row>, rows': seq<Row>, parent: int) {
    rows <= rows' && forall i | |rows| <= i < |rows'| :: rows'[i].parent == parent
  }

  method ImportItems(s: Session<Tables>, card: Card, cardId: int) returns (outcome: Outcome)
    requires Valid(s.tables)
    modifies s, ItemsOf({card})
    ensures s.Reliable && cardId in old(Ids(s.tables.cards)) ==> outcome == Done
    ensures outcome == Done ==>
              && Valid(s.tables) && s.tables == old(s.tables).(items := s.tables.items)
              && AllBelow(old(s.tables.items), s.tables.items, cardId)
              && ReadItems(s.tables.items, cardId) == old(ReadItems(s.tables.items, cardId)) + CardContent(card).items
  {
    hide Valid, ReadItems;
    var want := CardContent(card).items;
    ghost var before := ReadItems(s.tables.items, cardId);
    for i := 0 to |card.Items|
      invariant Valid(s.tables) && s.tables == old(s.tables).(items := s.tables.items)
      invariant AllBelow(old(s.tables.items), s.tables.items, cardId)
      invariant ReadItems(s.tables.items, cardId) == before + want[..i]
    {
      var item := card.Items[i];
      assert item in card.Items;
      assert item in ItemsOf({card}) by { ItemOf(card, item); }
      item.Id := 0;
      item.CardId := cardId;
      var rows, id, result := Insert(s.tables.items, Ids(s.tables.cards), item.Id, item.CardId, item.Data,
                                     false, s.Reliable);
      if result != Done {
        return result;
      }
      AddItem(s.tables, Row(id, cardId, item.Data));
      s.tables := s.tables.(items := rows);
      assert want[..i + 1] == want[..i] + [item.Data];
    }
    return Done;
  }

  /** Cards of one freshly inserted tab. */
  method ImportCards(s: Session<Tables>, tab: Tab, tabId: int) returns (outcome: Outcome)
    requires Valid(s.tables) && ReadCards(s.tables.cards, s.tables.items, tabId) == []
    modifies s, tab.Cards, ItemsOf(set c | c in tab.Cards)
    ensures s.Reliable && tabId in old(Ids(s.tables.tabs)) ==> outcome == Done
    ensures outcome == Done ==>
              && Valid(s.tables) && s.tables == old(s.tables).(cards := s.tables.cards, items := s.tables.items)
              && AllBelow(old(s.tables.cards), s.tables.cards, tabId)
              && Appends(old(s.tables.items), s.tables.items, old(s.tables.cards))
              && ReadCards(s.tables.cards, s.tables.items, tabId) == TabContent(tab).cards
  {
    hide Valid, ReadItems;
    var want := TabContent(tab).cards;
    for i := 0 to |tab.Cards|
      invariant Valid(s.tables) && s.tables == old(s.tables).(cards := s.tables.cards, items := s.tables.items)
      invariant AllBelow(old(s.tables.cards), s.tables.cards, tabId)
      invariant Appends(old(s.tables.items), s.tables.items, old(s.tables.cards))
      invariant ReadCards(s.tables.cards, s.tables.items, tabId) == want[..i]
    {
      var card := tab.Cards[i];
      ghost var t := s.tables;
      card.Id := 0;
      card.TabId := tabId;
      var rows, cardId, result := Insert(s.tables.cards, Ids(s.tables.tabs), card.Id, card.TabId, card.Data,
                                         false, s.Reliable);
      if result != Done {
        return result;
      }
      AddCard(t, Row(cardId, tabId, card.Data));
      s.tables := s.tables.(cards := rows);
      assert ItemsOf({card}) <= ItemsOf(set c | c in tab.Cards);
      result := ImportItems(s, card, cardId);
      if result != Done {
        return result;
      }
      CardAdded(t, s.tables, Row(cardId, tabId, card.Data), old(s.tables.cards));
      assert ReadItems(s.tables.items, cardId) == CardContent(card).items;
      assert want[..i + 1] == want[..i] + [CardContent(card)];
    }
    return Done;
  }

  lemma CardAdded(t: Tables, u: Tables, row: Row, parents: seq<Row>)
    requires row.id !in Ids(t.cards) && parents <= t.cards
    requires u.cards == t.cards + [row] && AllBelow(t.items, u.items, row.id)
    ensures ReadCards(u.cards, u.items, row.parent)
            == ReadCards(t.cards, t.items, row.parent) + [CardTree(row.fields, ReadItems(u.items, row.id))]
    ensures forall i | |t.items| <= i < |u.items| :: u.items[i].parent !in Ids(parents)
  {
    OwnIds(t.cards);
    CardsUnaffected(t.cards, t.cards, t.items, u.items, row.parent);
    assert u.cards[..|u.cards| - 1] == t.cards;
    assert Ids(parents) <= Ids(t.cards);
  }

  predicate DistinctNames(tabs: seq<Tab>) {
    forall i, j | 0 <= i < j < |tabs| :: tabs[i].Data.name != tabs[j].Data.name
  }

  /** The names taken below a board are those of the tabs read there. */
  lemma {:induction false} TakenNames(tabs: seq<Row>, cards: seq<Row>, items: seq<Row>, board: int, name: string)
    ensures IsTaken(tabs, board, name) <==> exists t | t in ReadTabs(tabs, cards, items, board) :: t.fields.name == name
  {
    if tabs != [] {
      var n := |tabs| - 1;
      TakenNames(tabs[..n], cards, items, board, name);
      var last := TabTree(tabs[n].fields, ReadCards(cards, items, tabs[n].id));
      assert tabs[n].parent == board ==> last in ReadTabs(tabs, cards, items, board);
      assert IsTaken(tabs, board, name) <==>
          IsTaken(tabs[..n], board, name) || (tabs[n].parent == board && tabs[n].fields.name == name);
    }
  }

  /** Tabs of the freshly inserted board. */
  method ImportTabs(s: Session<Tables>, board: Board, id: int) returns (outcome: Outcome)
    requires Valid(s.tables) && ReadTabs(s.tables.tabs, s.tables.cards, s.tables.items, id) == []
    modifies s, board.Tabs, CardsOf(board.Tabs), ItemsOf(CardsOf(board.Tabs))
    ensures s.Reliable && id in old(Ids(s.tables.boards)) ==> (outcome == Done <==> DistinctNames(board.Tabs))
    ensures outcome == Done ==>
              && Valid(s.tables) && s.tables.boards == old(s.tables.boards)
              && AllBelow(old(s.tables.tabs), s.tables.tabs, id)
              && Appends(old(s.tables.cards), s.tables.cards, old(s.tables.tabs))
              && Appends(old(s.tables.items), s.tables.items, old(s.tables.cards))
              && ReadTabs(s.tables.tabs, s.tables.cards, s.tables.items, id) == BoardContent("", board).tabs
  {
    hide Valid, ReadItems, ReadCards, ReadTabs, CardContent, IsTaken, DistinctNames;
    assert DistinctNames(board.Tabs[..0]) by { NoNames(board.Tabs[..0]); }
    var want := BoardContent("", board).tabs;
    for i := 0 to |board.Tabs|
      invariant Valid(s.tables) && s.tables.boards == old(s.tables.boards)
      invariant AllBelow(old(s.tables.tabs), s.tables.tabs, id)
      invariant Appends(old(s.tables.cards), s.tables.cards, old(s.tables.tabs))
      invariant Appends(old(s.tables.items), s.tables.items, old(s.tables.cards))
      invariant ReadTabs(s.tables.tabs, s.tables.cards, s.tables.items, id) == want[..i]
      invariant DistinctNames(board.Tabs[..i])
    {
      var tab := board.Tabs[i];
      ghost var t := s.tables;
      TabTaken(t, board.Tabs, i, id);
      tab.Id := 0;
      tab.DashboardId := id;
      var rows, tabId, result := Insert(s.tables.tabs, Ids(s.tables.boards), tab.Id, tab.DashboardId, tab.Data,
                                        true, s.Reliable);
      if result != Done {
        return result;
      }
      AddTab(t, Row(tabId, id, tab.Data));
      s.tables := s.tables.(tabs := rows);
      assert forall c | c in tab.Cards :: c in CardsOf(board.Tabs);
      result := ImportCards(s, tab, tabId);
      if result != Done {
        return result;
      }
      TabAdded(t, s.tables, Row(tabId, id, tab.Data), old(s.tables));
      assert want[..i + 1] == want[..i] + [TabContent(tab)];
    }
    assert board.Tabs[..|board.Tabs|] == board.Tabs;
    return Done;
  }

  lemma NoNames(tabs: seq<Tab>)
    requires tabs == []
    ensures DistinctNames(tabs)
  {
  }

  /** The table refuses the name of a tab exactly when an earlier tab of the board has it. */
  lemma TabTaken(t: Tables, tabs: seq<Tab>, i: nat, id: int)
    requires i < |tabs|
    requires ReadTabs(t.tabs, t.cards, t.items, id) == seq(i, j requires 0 <= j < i => TabContent(tabs[j]))
    requires DistinctNames(tabs[..i])
    ensures IsTaken(t.tabs, id, tabs[i].Data.name) <==> !DistinctNames(tabs[..i + 1])
    ensures DistinctNames(tabs) ==> DistinctNames(tabs[..i + 1])
  {
    hide IsTaken;
    var name := tabs[i].Data.name;
    var read := ReadTabs(t.tabs, t.cards, t.items, id);
    TakenNames(t.tabs, t.cards, t.items, id, name);
    if j :| 0 <= j < i && tabs[j].Data.name == name {
      assert read[j] in read;
    }
    if x :| x in read && x.fields.name == name {
      var j :| 0 <= j < i && read[j] == x;
    }
  }

  lemma TabAdded(t: Tables, u: Tables, row: Row, t0: Tables)
    requires row.id !in Ids(t.tabs) && t0.tabs <= t.tabs && t0.cards <= t.cards
    requires u.boards == t.boards && u.tabs == t.tabs + [row] && AllBelow(t.cards, u.cards, row.id)
    requires Appends(t.items, u.items, t.cards)
    ensures ReadTabs(u.tabs, u.cards, u.items, row.parent)
            == ReadTabs(t.tabs, t.cards, t.items, row.parent)
               + [TabTree(row.fields, ReadCards(u.cards, u.items, row.id))]
    ensures forall i | |t.cards| <= i < |u.cards| :: u.cards[i].parent !in Ids(t0.tabs)
    ensures forall i | |t.items| <= i < |u.items| :: u.items[i].parent !in Ids(t0.cards)
  {
    OwnIds(t.tabs);
    var v := u.(tabs := t.tabs);
    TabsUnaffected(t, v, t.tabs, row.parent);
    assert u.tabs[..|u.tabs| - 1] == t.tabs;
    assert Ids(t0.tabs) <= Ids(t.tabs) && Ids(t0.cards) <= Ids(t.cards);
  }

  // ---------- the whole import ----------

  /** `u` is `t` plus exactly one board with this id and content; every new row hangs below it. */
  predicate Imported(t: Tables, u: Tables, id: int, content: BoardTree) {
    && Valid(u) && Grown(t, u)
    && id !in Ids(t.boards) && |u.boards| == |t.boards| + 1
    && AllBelow(t.tabs, u.tabs, id)
    && ReadBoard(u, id) == Some(content)
  }

  /** `inserted` is how the transaction body ended; `readable` says that the board could be read back
      and its entities looked up. Without a result the tables are as before, unless the import was
      committed and only that failed. On a reliable database the body ends well exactly if the new name
      is free and no two tabs have the same name. */
  method Import(s: Session<Tables>, board: Board, commits: bool, readable: bool)
    returns (result: Option<BoardTree>, inserted: Outcome, id: int)
    requires Valid(s.tables)
    modifies s, board, board.Tabs, CardsOf(board.Tabs), ItemsOf(CardsOf(board.Tabs))
    ensures inserted != Done ==> result == None && s.tables == old(s.tables)
    ensures inserted == Done && !commits ==> result == None && s.tables == old(s.tables)
    ensures inserted == Done && commits ==>
              Imported(old(s.tables), s.tables, id, BoardContent(old(board.Name) + " [IMPORTED]", board))
    ensures result.Some? ==> result.value == BoardContent(old(board.Name) + " [IMPORTED]", board)
    ensures result.Some? <==> inserted == Done && commits && readable
    ensures s.Reliable ==>
              (inserted == Done <==>
                 !IsTaken(old(s.tables.boards), 0, old(board.Name) + " [IMPORTED]") && DistinctNames(board.Tabs))
  {
    hide Valid;
    board.Id := 0;
    board.Name := board.Name + " [IMPORTED]";
    var before := s.tables;
    var rows;
    rows, id, inserted := Insert(before.boards, [0], board.Id, 0, Fields(board.Name, board.Rest),
                                 true, s.Reliable);
    if inserted == Done {
      ghost var row := Row(id, 0, Fields(board.Name, board.Rest));
      AddBoard(before, row);
      s.tables := s.tables.(boards := rows);
      inserted := ImportTabs(s, board, id);
      if inserted == Done {
        BoardAdded(before, s.tables, row, BoardContent("", board).tabs);
      }
    }
    assert inserted == Done ==> Imported(before, s.tables, id, BoardContent(board.Name, board));
    var failed := s.Finish(before, inserted, commits);
    if failed {
      return None, inserted, id;
    }
    if !readable {
      return None, inserted, id;
    }
    assert !commits ==> ReadBoard(s.tables, id) == None by { Unknown(before.boards, before, id); }
    result := ReadBoard(s.tables, id);
  }

  lemma BoardAdded(t: Tables, u: Tables, row: Row, tabs: seq<TabTree>)
    requires Valid(t) && Valid(u) && row.id !in Ids(t.boards)
    requires u.boards == t.boards + [row] && AllBelow(t.tabs, u.tabs, row.id)
    requires Appends(t.cards, u.cards, t.tabs) && Appends(t.items, u.items, t.cards)
    requires ReadTabs(u.tabs, u.cards, u.items, row.id) == tabs
    ensures Imported(t, u, row.id, BoardTree(row.fields, tabs))
  {
    assert u.boards[|u.boards| - 1] == row;
  }

  lemma {:induction false} Unknown(boards: seq<Row>, t: Tables, id: int)
    requires id !in Ids(boards)
    ensures ReadBoards(boards, t, id) == None
  {
    if boards != [] {
      OwnIds(boards);
      assert Ids(boards) == Ids(boards[..|boards| - 1]) + [boards[|boards| - 1].id];
      Unknown(boards[..|boards| - 1], t, id);
    }
  }

  /** An import leaves every other board, with all its tabs, cards and items, as it was. */
  lemma ImportKeepsOthers(t: Tables, u: Tables, id: int, content: BoardTree, other: int)
    requires Imported(t, u, id, content) && other != id
    ensures ReadBoard(u, other) == ReadBoard(t, other)
  {
    if other in Ids(t.boards) {
      OldBoardsUnchanged(t, u, other);
    } else {
      var row := u.boards[|u.boards| - 1];
      OwnIds(u.boards);
      assert u.boards == t.boards + [row];
      assert row.id == id by {
        if row.id != id {
          AddId(t.boards, row);
          Unknown(u.boards, u, id);
        }
      }
      AddId(t.boards, row);
      Unknown(t.boards, t, other);
      Unknown(u.boards, u, other);
    }
  }

  // ---------- preloading entities ----------

  function EntityIdsOfCards(cards: seq<Card>): set<string> {
    set c, id | c in cards && id in EntityIdsOfCard(c) :: id
  }

  function EntityIdsOfCard(c: Card): set<string> {
    (if c.EntityId.Some? then {c.EntityId.value} else {}) +
    EntityIdsOfItems(c.Items)
  }

  function EntityIdsOfItems(items: seq<Item>): set<string> {
    set i | i in items && i.EntityId.Some? :: i.EntityId.value
  }

  function EntityIds(tabs: seq<Tab>): set<string> {
    set t, id | t in tabs && id in EntityIdsOfCards(t.Cards) :: id
  }

  /** GetByIds: the entities that exist among these ids, in any order. */
  method GetByIds<E>(table: map<string, E>, ids: set<string>) returns (list: seq<(string, E)>)
    ensures forall e | e in list :: e.0 in ids && e.0 in table && table[e.0] == e.1
    ensures forall id | id in ids && id in table :: (id, table[id]) in list
  {
    list := [];
    var rest := ids;
    while rest != {}
      invariant rest <= ids
      invariant forall e | e in list :: e.0 in ids && e.0 in table && table[e.0] == e.1
      invariant forall id | id in ids && id in table :: id in rest || (id, table[id]) in list
    {
      var id :| id in rest;
      rest := rest - {id};
      if id in table {
        list := list + [(id, table[id])];
      }
    }
  }

  lemma EntityIdsAppend(cards: seq<Card>, card: Card)
    ensures EntityIdsOfCards(cards + [card]) == EntityIdsOfCards(cards) + EntityIdsOfCard(card)
  {
    hide EntityIdsOfCard;
  }

  lemma TabEntityIdsAppend(tabs: seq<Tab>, tab: Tab)
    ensures EntityIds(tabs + [tab]) == EntityIds(tabs) + EntityIdsOfCards(tab.Cards)
  {
    hide EntityIdsOfCards;
  }

  predicate AllNone<E>(m: map<string, Option<E>>) {
    forall id | id in m :: m[id] == None
  }

  lemma ItemEntityIdsAppend(items: seq<Item>, item: Item)
    ensures EntityIdsOfItems(items + [item])
            == EntityIdsOfItems(items) + if item.EntityId.Some? then {item.EntityId.value} else {}
  {
    assert item in items + [item];
  }

  method CollectCard<E>(card: Card, entityMap: map<string, Option<E>>) returns (entities: map<string, Option<E>>)
    requires AllNone(entityMap)
    ensures AllNone(entities) && entities.Keys == entityMap.Keys + EntityIdsOfCard(card)
  {
    hide EntityIdsOfItems;
    entities := entityMap;
    if card.EntityId.Some? {
      entities := entities[card.EntityId.value := None];
    }
    ghost var keys := entities.Keys;
    assert EntityIdsOfItems(card.Items[..0]) == {} by { NoItemIds(card.Items[..0]); }
    for k := 0 to |card.Items|
      invariant AllNone(entities) && entities.Keys == keys + EntityIdsOfItems(card.Items[..k])
    {
      if card.Items[k].EntityId.Some? {
        entities := entities[card.Items[k].EntityId.value := None];
      }
      ItemEntityIdsAppend(card.Items[..k], card.Items[k]);
      assert card.Items[..k + 1] == card.Items[..k] + [card.Items[k]];
    }
    assert card.Items[..|card.Items|] == card.Items;
  }

  lemma NoItemIds(items: seq<Item>)
    requires items == []
    ensures EntityIdsOfItems(items) == {}
  {
  }

  method CollectIds<E>(cards: seq<Card>, entityMap: map<string, Option<E>>) returns (entities: map<string, Option<E>>)
    requires AllNone(entityMap)
    ensures AllNone(entities) && entities.Keys == entityMap.Keys + EntityIdsOfCards(cards)
  {
    entities := entityMap;
    for j := 0 to |cards|
      invariant AllNone(entities) && entities.Keys == entityMap.Keys + EntityIdsOfCards(cards[..j])
    {
      entities := CollectCard(cards[j], entities);
      EntityIdsAppend(cards[..j], cards[j]);
      assert cards[..j + 1] == cards[..j] + [cards[j]];
    }
    assert cards[..|cards|] == cards;
  }

  /** The entity is shown on the card itself or on one of its items. */
  predicate OnCard(c: Card, id: string) {
    c.EntityId == Some(id) || exists i | i in c.Items :: i.EntityId == Some(id)
  }

  predicate OnTab(t: Tab, id: string) {
    exists c | c in t.Cards :: OnCard(c, id)
  }

  lemma EntityIdsAre(tabs: seq<Tab>, id: string)
    ensures id in EntityIds(tabs) <==> exists t | t in tabs :: OnTab(t, id)
  {
    forall t | t in tabs ensures id in EntityIdsOfCards(t.Cards) <==> OnTab(t, id) {
      forall c | c in t.Cards ensures id in EntityIdsOfCard(c) <==> OnCard(c, id) {
      }
    }
  }

  /** Every entity id on a card or an item gets an entry: the entity, or nothing if it is gone. */
  method PreloadEntities<E>(tabs: seq<Tab>, table: map<string, E>) returns (entities: map<string, Option<E>>)
    ensures forall id: string :: id in entities <==> exists t | t in tabs :: OnTab(t, id)
    ensures forall id | id in entities :: entities[id] == if id in table then Some(table[id]) else None
  {
    entities := map[];
    for i := 0 to |tabs|
      invariant AllNone(entities) && entities.Keys == EntityIds(tabs[..i])
    {
      entities := CollectIds(tabs[i].Cards, entities);
      TabEntityIdsAppend(tabs[..i], tabs[i]);
      assert tabs[..i + 1] == tabs[..i] + [tabs[i]];
    }
    assert tabs[..|tabs|] == tabs;
    forall id: string ensures id in entities <==> exists t | t in tabs :: OnTab(t, id) {
      EntityIdsAre(tabs, id);
    }
    var list := GetByIds(table, entities.Keys);
    entities := Assign(entities, table, list);
  }

  /** The entities that were found replace the empty entries. */
  method Assign<E>(entityMap: map<string, Option<E>>, table: map<string, E>, list: seq<(string, E)>)
    returns (entities: map<string, Option<E>>)
    requires AllNone(entityMap)
    requires forall e | e in list :: e.0 in entityMap && e.0 in table && table[e.0] == e.1
    requires forall id | id in entityMap && id in table :: (id, table[id]) in list
    ensures entities.Keys == entityMap.Keys
    ensures forall id | id in entities :: entities[id] == if id in table then Some(table[id]) else None
  {
    entities := entityMap;
    for i := 0 to |list|
      invariant entities.Keys == entityMap.Keys
      invariant forall id | id in entities :: entities[id].Some? ==> id in table && entities[id].value == table[id]
      invariant forall j | 0 <= j < i :: entities[list[j].0].Some?
    {
      assert list[i] in list;
      entities := entities[list[i].0 := Some(list[i].1)];
    }
    forall id | id in entities && id in table ensures entities[id].Some? {
      var j :| 0 <= j < |list| && list[j] == (id, table[id]);
    }
  }
}
