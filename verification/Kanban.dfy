/** Drag and drop on the board page: a dropped card gets a fractional position between its new
    neighbours, and columns show their cards sorted by position. Positions are real numbers. */
module Kanban {
  import opened Common

  datatype Card = Card(id: Id, column: Id, position: real, version: int)

  // ---------------------------------------------------------------- what a column shows

  function InColumn(cards: seq<Card>, column: Id): seq<Card> {
    if cards == [] then []
    else (if cards[0].column == column then [cards[0]] else []) + InColumn(cards[1..], column)
  }

  function Insert(c: Card, sorted: seq<Card>): seq<Card> {
    if sorted == [] || c.position <= sorted[0].position then [c] + sorted
    else [sorted[0]] + Insert(c, sorted[1..])
  }

  /** A stable sort by position. */
  function Sort(cards: seq<Card>): seq<Card> {
    if cards == [] then [] else Insert(cards[0], Sort(cards[1..]))
  }

  function Shown(cards: seq<Card>, column: Id): seq<Card> {
    Sort(InColumn(cards, column))
  }

  function Without(cards: seq<Card>, id: Id): seq<Card> {
    if cards == [] then [] else (if cards[0].id == id then [] else [cards[0]]) + Without(cards[1..], id)
  }

  function Ids(cards: seq<Card>): (ids: seq<Id>)
    ensures |ids| == |cards| && forall i :: 0 <= i < |ids| ==> ids[i] == cards[i].id
  {
    seq(|cards|, i requires 0 <= i < |cards| => cards[i].id)
  }

  /** The index of a card, or the length when there is none. */
  function IndexOf(cards: seq<Card>, id: Id): (k: nat)
    ensures k <= |cards| && (k < |cards| ==> cards[k].id == id)
  {
    if cards == [] || cards[0].id == id then 0 else 1 + IndexOf(cards[1..], id)
  }

  function Replace(cards: seq<Card>, card: Card): (r: seq<Card>)
    ensures |r| == |cards|
    ensures forall i :: 0 <= i < |cards| ==> r[i] == if cards[i].id == card.id then card else cards[i]
  {
    seq(|cards|, i requires 0 <= i < |cards| => if cards[i].id == card.id then card else cards[i])
  }

  ghost predicate Increasing(cards: seq<Card>) {
    forall i, j :: 0 <= i < j < |cards| ==> cards[i].position < cards[j].position
  }

  ghost predicate Sorted(cards: seq<Card>) {
    forall i, j :: 0 <= i < j < |cards| ==> cards[i].position <= cards[j].position
  }

  ghost predicate DistinctIds(cards: seq<Card>) {
    forall i, j :: 0 <= i < j < |cards| ==> cards[i].id != cards[j].id
  }

  // ---------------------------------------------------------------- dropping a card

  /** The position a card gets: halfway to the card it was dropped on, in front of the first, or
      behind the last. `others` is the destination column as shown, without the card. */
  function NewPosition(others: seq<Card>, target: Option<Card>): real {
    if target == None then (if others == [] then 0.0 else others[|others| - 1].position) + 1000.0
    else
      var k := IndexOf(others, target.value.id);
      if 0 < k < |others| then (others[k - 1].position + target.value.position) / 2.0
      else target.value.position - 1000.0
  }

  /** The card as the drop leaves it. */
  function MovedCard(cards: seq<Card>, card: Card, destination: Id, target: Option<Card>): Card {
    Card(card.id, destination, NewPosition(Without(Shown(cards, destination), card.id), target), card.version + 1)
  }

  /** Drop `card` on a column (target None) or on another card. */
  function Dropped(cards: seq<Card>, card: Card, destination: Id, target: Option<Card>): seq<Card> {
    Replace(cards, MovedCard(cards, card, destination, target))
  }

  class KanbanBoard {
    var columns: set<Id>
    var cards: seq<Card>

    constructor (columns: set<Id>, cards: seq<Card>)
      ensures this.columns == columns && this.cards == cards
    {
      this.columns, this.cards := columns, cards;
    }

    /** The end of a drag over an element that is a column or a card; the server accepts the move
        or refuses it, and then the page goes back to what it showed. */
    method Moved(card: Card, over: Id, accepted: bool)
      modifies this`cards
      ensures over == card.id || (over !in columns && IndexOf(old(cards), over) == |old(cards)|) ==> cards == old(cards)
      ensures !accepted ==> cards == old(cards)
      ensures accepted && over != card.id && over in columns && IndexOf(old(cards), over) == |old(cards)| ==>
        cards == Dropped(old(cards), card, over, None)
      ensures accepted && over != card.id && over !in columns && IndexOf(old(cards), over) < |old(cards)| ==>
        var target := old(cards)[IndexOf(old(cards), over)];
        cards == Dropped(old(cards), card, target.column, Some(target))
    {
      if over == card.id {
        return;
      }
      var initial := cards;
      var index := IndexOf(cards, over);
      if over !in columns && index == |cards| {
        return;
      }
      var destination := if over in columns then over else cards[index].column;
      var others := Without(Shown(cards, destination), card.id);
      var position := (if others == [] then 0.0 else others[|others| - 1].position) + 1000.0;
      if index < |cards| {
        var target := cards[index];
        var k := IndexOf(others, target.id);
        position := if 0 < k < |others| then (others[k - 1].position + target.position) / 2.0
            else target.position - 1000.0;
      }
      cards := Replace(cards, Card(card.id, destination, position, card.version + 1));
      if !accepted {
        cards := initial;
      }
    }
  }

  // ---------------------------------------------------------------- sorting

  ghost predicate SameCards(a: seq<Card>, b: seq<Card>) {
    forall x :: x in a <==> x in b
  }

  lemma {:induction false} InsertSorts(c: Card, sorted: seq<Card>)
    requires Sorted(sorted) && DistinctIds(sorted) && forall x :: x in sorted ==> x.id != c.id
    ensures Sorted(Insert(c, sorted)) && DistinctIds(Insert(c, sorted))
    ensures forall x :: x in Insert(c, sorted) <==> x == c || x in sorted
  {
    if sorted != [] && c.position > sorted[0].position {
      var rest := sorted[1..];
      assert forall x :: x in sorted <==> x == sorted[0] || x in rest;
      InsertSorts(c, rest);
      var r := Insert(c, rest);
      forall i | 0 <= i < |r|
        ensures sorted[0].position <= r[i].position && sorted[0].id != r[i].id
      {
        assert r[i] in r;
      }
    }
  }

  /** Sorting orders the cards and loses, adds or doubles none. */
  lemma {:induction false} SortSorts(cards: seq<Card>)
    requires DistinctIds(cards)
    ensures Sorted(Sort(cards)) && DistinctIds(Sort(cards)) && SameCards(Sort(cards), cards)
  {
    if cards != [] {
      var rest := cards[1..];
      assert forall x :: x in cards <==> x == cards[0] || x in rest;
      SortSorts(rest);
      InsertSorts(cards[0], Sort(rest));
    }
  }

  lemma SomeCard(cards: seq<Card>)
    ensures cards == [] || exists x :: x in cards
  {
    if cards != [] {
      assert cards[0] in cards;
    }
  }

  /** Only one arrangement of a collection of cards is strictly increasing. */
  lemma {:induction false} OrderUnique(a: seq<Card>, b: seq<Card>)
    requires Increasing(a) && Increasing(b) && SameCards(a, b)
    ensures a == b
    decreases |a|
  {
    SomeCard(a);
    SomeCard(b);
    if a != [] && b != [] {
      assert a[0] in b && b[0] in a;
      assert a[0] == b[0];
      var x, y := a[1..], b[1..];
      assert (forall c :: c in a <==> c == a[0] || c in x) && (forall c :: c in b <==> c == b[0] || c in y);
      assert a[0] !in x && b[0] !in y;
      OrderUnique(x, y);
      assert a == [a[0]] + x && b == [b[0]] + y;
    }
  }

  /** An increasing arrangement of distinct cards is what sorting them yields. */
  lemma SortYields(cards: seq<Card>, arrangement: seq<Card>)
    requires DistinctIds(cards) && Increasing(arrangement) && SameCards(cards, arrangement)
    ensures Sort(cards) == arrangement
  {
    SortSorts(cards);
    var s := Sort(cards);
    forall i, j | 0 <= i < j < |s|
      ensures s[i].position < s[j].position
    {
      assert s[i] in arrangement && s[j] in arrangement && s[i] != s[j];
    }
    OrderUnique(s, arrangement);
  }

  lemma {:induction false} ColumnCards(cards: seq<Card>, column: Id)
    requires DistinctIds(cards)
    ensures DistinctIds(InColumn(cards, column))
    ensures forall x :: x in InColumn(cards, column) <==> x in cards && x.column == column
  {
    if cards != [] {
      var rest := cards[1..];
      assert forall x :: x in cards <==> x == cards[0] || x in rest;
      ColumnCards(rest, column);
    }
  }

  lemma {:induction false} WithoutCards(cards: seq<Card>, id: Id)
    requires Increasing(cards)
    ensures Increasing(Without(cards, id))
    ensures forall x :: x in Without(cards, id) <==> x in cards && x.id != id
  {
    if cards != [] {
      var rest := cards[1..];
      assert forall x :: x in cards <==> x == cards[0] || x in rest;
      WithoutCards(rest, id);
      var w := Without(rest, id);
      forall i | 0 <= i < |w|
        ensures cards[0].position < w[i].position
      {
        assert w[i] in w && w[i] in rest;
      }
      assert Without(cards, id) == if cards[0].id == id then w else [cards[0]] + w;
    }
  }

  // ---------------------------------------------------------------- a drop is a list insertion

  /** Where the card goes in the list of the others: in front of the target, or at the end. */
  function Slot(others: seq<Card>, target: Option<Card>): (k: nat)
    ensures k <= |others|
  {
    if target == None then |others| else IndexOf(others, target.value.id)
  }

  function InsertAt(others: seq<Card>, k: nat, c: Card): seq<Card>
    requires k <= |others|
  {
    others[..k] + [c] + others[k..]
  }

  /** The computed position fits strictly between the neighbours of the slot. */
  lemma PositionFits(others: seq<Card>, target: Option<Card>, c: Card)
    requires Increasing(others) && (target.Some? ==> target.value in others)
    requires target.Some? ==> forall x :: x in others && x.id == target.value.id ==> x == target.value
    requires c.position == NewPosition(others, target)
    ensures Increasing(InsertAt(others, Slot(others, target), c))
  {
    var k := Slot(others, target);
    if target.Some? {
      IndexFound(others, target.value);
      assert others[k] in others && others[k] == target.value;
    }
    InBetween(others, k, c);
  }

  lemma InBetween(others: seq<Card>, k: nat, c: Card)
    requires Increasing(others) && k <= |others|
    requires 0 < k ==> others[k - 1].position < c.position
    requires k < |others| ==> c.position < others[k].position
    ensures Increasing(InsertAt(others, k, c))
  {
    assert forall i :: 0 <= i < k ==> others[i].position < c.position;
    assert forall i :: k <= i < |others| ==> c.position < others[i].position;
  }

  lemma {:induction false} IndexFound(cards: seq<Card>, c: Card)
    requires c in cards
    ensures IndexOf(cards, c.id) < |cards|
  {
    if cards[0].id != c.id {
      IndexFound(cards[1..], c);
    }
  }

  lemma ReplaceCards(cards: seq<Card>, old_: Card, new_: Card)
    requires DistinctIds(cards) && old_ in cards && old_.id == new_.id
    ensures DistinctIds(Replace(cards, new_))
    ensures forall x :: x in Replace(cards, new_) <==> x == new_ || (x in cards && x.id != new_.id)
  {
    var r := Replace(cards, new_);
    var k :| 0 <= k < |cards| && cards[k] == old_;
    assert r[k] == new_;
    forall x | x in cards && x.id != new_.id
      ensures x in r
    {
      var i :| 0 <= i < |cards| && cards[i] == x;
      assert r[i] == x;
    }
  }

  /** After the card is replaced a column holds what it showed without the card, and the card. */
  lemma CardsAfter(cards: seq<Card>, card: Card, moved: Card, column: Id)
    requires DistinctIds(cards) && card in cards && card.id == moved.id && Increasing(Shown(cards, column))
    ensures var others := Without(Shown(cards, column), card.id);
            var after := InColumn(Replace(cards, moved), column);
            && Increasing(others) && DistinctIds(Replace(cards, moved)) && DistinctIds(after)
            && (forall x :: x in others <==> x in cards && x.column == column && x.id != card.id)
            && (forall x :: x in after <==> x in others || (x == moved && moved.column == column))
  {
    ReplaceCards(cards, card, moved);
    ColumnCards(cards, column);
    ColumnCards(Replace(cards, moved), column);
    SortSorts(InColumn(cards, column));
    WithoutCards(Shown(cards, column), card.id);
  }

  lemma InsertedCards(others: seq<Card>, k: nat, c: Card)
    requires k <= |others|
    ensures forall x :: x in InsertAt(others, k, c) <==> x in others || x == c
  {
    assert others == others[..k] + others[k..];
  }

  /** A column shows the one increasing arrangement of its old cards without the one moved and,
      if it was moved there, of the moved card. */
  lemma ColumnBecomes(cards: seq<Card>, card: Card, moved: Card, column: Id, arrangement: seq<Card>)
    requires DistinctIds(cards) && card in cards && card.id == moved.id && Increasing(Shown(cards, column))
    requires Increasing(arrangement)
    requires forall x :: x in arrangement
               <==> x in Without(Shown(cards, column), card.id) || (x == moved && moved.column == column)
    ensures Shown(Replace(cards, moved), column) == arrangement
  {
    CardsAfter(cards, card, moved, column);
    SortYields(InColumn(Replace(cards, moved), column), arrangement);
  }

  /** The destination column as the drop leaves it. */
  function Inserted(cards: seq<Card>, card: Card, destination: Id, target: Option<Card>): seq<Card> {
    var others := Without(Shown(cards, destination), card.id);
    InsertAt(others, Slot(others, target), MovedCard(cards, card, destination, target))
  }

  lemma InsertedIncreases(cards: seq<Card>, card: Card, destination: Id, target: Option<Card>)
    requires DistinctIds(cards) && card in cards && Increasing(Shown(cards, destination))
    requires target.Some? ==> target.value in cards && target.value.column == destination && target.value.id != card.id
    ensures Increasing(Inserted(cards, card, destination, target))
  {
    var moved := MovedCard(cards, card, destination, target);
    CardsAfter(cards, card, moved, destination);
    if target.Some? {
      SameIdSameCard(cards, target.value);
    }
    PositionFits(Without(Shown(cards, destination), card.id), target, moved);
  }

  /** Dropping a card makes the destination column the old list with the card inserted in front of
      the target, or at the end, still strictly increasing. */
  lemma DropInserts(cards: seq<Card>, card: Card, destination: Id, target: Option<Card>)
    requires DistinctIds(cards) && card in cards && Increasing(Shown(cards, destination))
    requires target.Some? ==> target.value in cards && target.value.column == destination && target.value.id != card.id
    ensures Shown(Dropped(cards, card, destination, target), destination) == Inserted(cards, card, destination, target)
    ensures Increasing(Shown(Dropped(cards, card, destination, target), destination))
  {
    var others := Without(Shown(cards, destination), card.id);
    var moved := MovedCard(cards, card, destination, target);
    InsertedIncreases(cards, card, destination, target);
    InsertedCards(others, Slot(others, target), moved);
    ColumnBecomes(cards, card, moved, destination, Inserted(cards, card, destination, target));
  }

  /** Every other column just loses the card, if it had it. */
  lemma DropLeaves(cards: seq<Card>, card: Card, destination: Id, target: Option<Card>, column: Id)
    requires DistinctIds(cards) && card in cards && Increasing(Shown(cards, column)) && column != destination
    ensures Shown(Dropped(cards, card, destination, target), column) == Without(Shown(cards, column), card.id)
    ensures Increasing(Shown(Dropped(cards, card, destination, target), column))
  {
    var moved := MovedCard(cards, card, destination, target);
    WithoutCards(Shown(cards, column), card.id);
    ColumnBecomes(cards, card, moved, column, Without(Shown(cards, column), card.id));
  }

  lemma DropKeepsIds(cards: seq<Card>, card: Card, destination: Id, target: Option<Card>)
    requires DistinctIds(cards) && card in cards
    ensures DistinctIds(Dropped(cards, card, destination, target))
  {
    ReplaceCards(cards, card, MovedCard(cards, card, destination, target));
  }

  lemma SameIdSameCard(cards: seq<Card>, c: Card)
    requires DistinctIds(cards) && c in cards
    ensures forall x :: x in cards && x.id == c.id ==> x == c
  {
  }

  // ---------------------------------------------------------------- any sequence of drops

  /** A drop as the page sees it: the card's id, where it was dropped, and the server's answer. */
  datatype Drop = Drop(card: Id, destination: Id, target: Option<Id>, accepted: bool)

  /** The drop makes sense on this board: the column is there, the card is, and so is the target, in
      that column. */
  predicate Possible(columns: set<Id>, cards: seq<Card>, d: Drop) {
    && d.destination in columns && IndexOf(cards, d.card) < |cards|
    && (d.target.Some? ==>
          var k := IndexOf(cards, d.target.value);
          k < |cards| && cards[k].column == d.destination && d.target.value != d.card)
  }

  function Apply(columns: set<Id>, cards: seq<Card>, d: Drop): seq<Card> {
    if !Possible(columns, cards, d) || !d.accepted then cards
    else Dropped(cards, cards[IndexOf(cards, d.card)], d.destination,
                 if d.target.Some? then Some(cards[IndexOf(cards, d.target.value)]) else None)
  }

  function ApplyAll(columns: set<Id>, cards: seq<Card>, drops: seq<Drop>): seq<Card>
    decreases |drops|
  {
    if drops == [] then cards else ApplyAll(columns, Apply(columns, cards, drops[0]), drops[1..])
  }

  /** The reference: a board of plain lists of ids, without positions. */
  type Lists = map<Id, seq<Id>>

  function IdWithout(ids: seq<Id>, id: Id): seq<Id> {
    if ids == [] then [] else (if ids[0] == id then [] else [ids[0]]) + IdWithout(ids[1..], id)
  }

  function IdIndex(ids: seq<Id>, id: Id): (k: nat)
    ensures k <= |ids|
  {
    if ids == [] || ids[0] == id then 0 else 1 + IdIndex(ids[1..], id)
  }

  function ListDrop(ids: seq<Id>, d: Drop, column: Id): seq<Id> {
    var rest := IdWithout(ids, d.card);
    if column != d.destination then rest
    else
      var k := if d.target.Some? then IdIndex(rest, d.target.value) else |rest|;
      rest[..k] + [d.card] + rest[k..]
  }

  predicate ListPossible(lists: Lists, d: Drop) {
    && d.destination in lists && (exists c :: c in lists && d.card in lists[c])
    && (d.target.Some? ==> d.target.value in lists[d.destination] && d.target.value != d.card)
  }

  function ListStep(lists: Lists, d: Drop): Lists {
    if !ListPossible(lists, d) || !d.accepted then lists
    else map c | c in lists :: ListDrop(lists[c], d, c)
  }

  function ListRun(lists: Lists, drops: seq<Drop>): Lists
    decreases |drops|
  {
    if drops == [] then lists else ListRun(ListStep(lists, drops[0]), drops[1..])
  }

  /** What the page shows, as lists. */
  function View(columns: set<Id>, cards: seq<Card>): Lists {
    map c | c in columns :: Ids(Shown(cards, c))
  }

  /** Cards have ids of their own, lie in existing columns, and no column holds a position twice. */
  ghost predicate Clean(columns: set<Id>, cards: seq<Card>) {
    && DistinctIds(cards) && (forall x :: x in cards ==> x.column in columns)
    && forall c :: c in columns ==> Increasing(Shown(cards, c))
  }

  lemma {:induction false} IdsWithout(cards: seq<Card>, id: Id)
    ensures Ids(Without(cards, id)) == IdWithout(Ids(cards), id)
  {
    if cards != [] {
      IdsWithout(cards[1..], id);
      assert Ids(cards)[1..] == Ids(cards[1..]);
    }
  }

  lemma {:induction false} IdsIndex(cards: seq<Card>, id: Id)
    ensures IdIndex(Ids(cards), id) == IndexOf(cards, id)
  {
    if cards != [] {
      IdsIndex(cards[1..], id);
      assert Ids(cards)[1..] == Ids(cards[1..]);
    }
  }

  lemma IdsInserted(others: seq<Card>, k: nat, c: Card)
    requires k <= |others|
    ensures Ids(InsertAt(others, k, c)) == Ids(others)[..k] + [c.id] + Ids(others)[k..]
  {
  }

  /** The destination column after a drop, as ids. */
  lemma InsertedIds(cards: seq<Card>, d: Drop, target: Option<Card>, card: Card)
    requires card.id == d.card && d.target == if target.Some? then Some(target.value.id) else None
    ensures Ids(Inserted(cards, card, d.destination, target))
            == ListDrop(Ids(Shown(cards, d.destination)), d, d.destination)
  {
    var others := Without(Shown(cards, d.destination), d.card);
    IdsWithout(Shown(cards, d.destination), d.card);
    if target.Some? {
      IdsIndex(others, target.value.id);
    }
    IdsInserted(others, Slot(others, target), MovedCard(cards, card, d.destination, target));
  }

  /** A column shows an id exactly when a card of the column has it. */
  lemma ShownIds(cards: seq<Card>, column: Id, id: Id)
    requires DistinctIds(cards)
    ensures id in Ids(Shown(cards, column)) <==> exists x :: x in cards && x.column == column && x.id == id
  {
    ColumnCards(cards, column);
    SortSorts(InColumn(cards, column));
    var shown := Shown(cards, column);
    if id in Ids(shown) {
      var i :| 0 <= i < |shown| && Ids(shown)[i] == id;
      assert shown[i] in shown && shown[i] in cards;
    }
    if x :| x in cards && x.column == column && x.id == id {
      assert x in shown;
      var i :| 0 <= i < |shown| && shown[i] == x;
      assert Ids(shown)[i] == id;
    }
  }

  lemma FoundCard(cards: seq<Card>, x: Card)
    requires DistinctIds(cards) && x in cards
    ensures IndexOf(cards, x.id) < |cards| && cards[IndexOf(cards, x.id)] == x
  {
    IndexFound(cards, x);
    var i :| 0 <= i < |cards| && cards[i] == x;
    var k := IndexOf(cards, x.id);
    assert cards[k].id == cards[i].id;
  }

  /** The page and the lists agree on which drops make sense. */
  lemma PossibleIff(columns: set<Id>, cards: seq<Card>, d: Drop)
    requires Clean(columns, cards)
    ensures Possible(columns, cards, d) <==> ListPossible(View(columns, cards), d)
  {
    var lists := View(columns, cards);
    if IndexOf(cards, d.card) < |cards| {
      var x := cards[IndexOf(cards, d.card)];
      assert x in cards;
      ShownIds(cards, x.column, d.card);
      assert x.column in lists && d.card in lists[x.column];
    }
    if c :| c in lists && d.card in lists[c] {
      ShownIds(cards, c, d.card);
      var x :| x in cards && x.column == c && x.id == d.card;
      FoundCard(cards, x);
    }
    if d.target.Some? {
      TargetIff(cards, d.target.value, d.destination);
    }
  }

  lemma TargetIff(cards: seq<Card>, target: Id, column: Id)
    requires DistinctIds(cards)
    ensures target in Ids(Shown(cards, column))
            <==> IndexOf(cards, target) < |cards| && cards[IndexOf(cards, target)].column == column
  {
    ShownIds(cards, column, target);
    if x :| x in cards && x.column == column && x.id == target {
      FoundCard(cards, x);
    }
    if IndexOf(cards, target) < |cards| {
      assert cards[IndexOf(cards, target)] in cards;
    }
  }

  /** One drop refines the list insertion in each column, and keeps it increasing. */
  lemma DropRefines(columns: set<Id>, cards: seq<Card>, d: Drop, column: Id)
    requires DistinctIds(cards) && Possible(columns, cards, d) && d.accepted
    requires Increasing(Shown(cards, column))
    ensures DistinctIds(Apply(columns, cards, d)) && Increasing(Shown(Apply(columns, cards, d), column))
    ensures Ids(Shown(Apply(columns, cards, d), column)) == ListDrop(Ids(Shown(cards, column)), d, column)
  {
    var card := cards[IndexOf(cards, d.card)];
    var target := if d.target.Some? then Some(cards[IndexOf(cards, d.target.value)]) else None;
    DropKeepsIds(cards, card, d.destination, target);
    if column == d.destination {
      DropInserts(cards, card, d.destination, target);
      InsertedIds(cards, d, target, card);
    } else {
      DropLeaves(cards, card, d.destination, target, column);
      IdsWithout(Shown(cards, column), d.card);
    }
  }

  lemma DroppedColumns(columns: set<Id>, cards: seq<Card>, d: Drop)
    requires Possible(columns, cards, d) && forall x :: x in cards ==> x.column in columns
    ensures forall x :: x in Apply(columns, cards, d) ==> x.column in columns
  {
    var after := Apply(columns, cards, d);
    forall i | 0 <= i < |after|
      ensures after[i].column in columns
    {
      assert cards[i] in cards;
    }
  }

  lemma ViewIs(columns: set<Id>, cards: seq<Card>, lists: Lists)
    requires lists.Keys == columns && forall c :: c in columns ==> Ids(Shown(cards, c)) == lists[c]
    ensures View(columns, cards) == lists
  {
  }

  lemma PossibleRefines(columns: set<Id>, cards: seq<Card>, d: Drop)
    requires Clean(columns, cards) && Possible(columns, cards, d) && d.accepted
    ensures Clean(columns, Apply(columns, cards, d))
    ensures View(columns, Apply(columns, cards, d)) == map c | c in columns :: ListDrop(Ids(Shown(cards, c)), d, c)
  {
    DroppedColumns(columns, cards, d);
    DropRefines(columns, cards, d, d.destination);
    forall c | c in columns
      ensures Increasing(Shown(Apply(columns, cards, d), c))
      ensures Ids(Shown(Apply(columns, cards, d), c)) == ListDrop(Ids(Shown(cards, c)), d, c)
    {
      DropRefines(columns, cards, d, c);
    }
    ViewIs(columns, Apply(columns, cards, d), map c | c in columns :: ListDrop(Ids(Shown(cards, c)), d, c));
  }

  lemma ListStepIs(columns: set<Id>, cards: seq<Card>, d: Drop)
    requires ListPossible(View(columns, cards), d) && d.accepted
    ensures ListStep(View(columns, cards), d) == map c | c in columns :: ListDrop(Ids(Shown(cards, c)), d, c)
  {
    var lists := View(columns, cards);
    assert forall c :: c in columns <==> c in lists;
    assert forall c :: c in columns ==> lists[c] == Ids(Shown(cards, c));
  }

  /** One drop, possible or not, accepted or not, is one step of the lists. */
  lemma StepRefines(columns: set<Id>, cards: seq<Card>, d: Drop)
    requires Clean(columns, cards)
    ensures Clean(columns, Apply(columns, cards, d))
    ensures View(columns, Apply(columns, cards, d)) == ListStep(View(columns, cards), d)
  {
    PossibleIff(columns, cards, d);
    if Possible(columns, cards, d) && d.accepted {
      PossibleRefines(columns, cards, d);
      ListStepIs(columns, cards, d);
    } else {
      assert Apply(columns, cards, d) == cards;
    }
  }

  /** Any sequence of drops shows in every column exactly what the same drops make of plain lists,
      which know nothing of positions; and positions in a column never collide. */
  lemma {:induction false} DropsRefineLists(columns: set<Id>, cards: seq<Card>, drops: seq<Drop>)
    requires Clean(columns, cards)
    ensures Clean(columns, ApplyAll(columns, cards, drops))
    ensures View(columns, ApplyAll(columns, cards, drops)) == ListRun(View(columns, cards), drops)
    decreases |drops|
  {
    if drops != [] {
      StepRefines(columns, cards, drops[0]);
      DropsRefineLists(columns, Apply(columns, cards, drops[0]), drops[1..]);
    }
  }

  // ---------------------------------------------------------------- what a drop does, in plain words

  /** Only the dropped card changes: it goes to the destination and its version goes up by one. */
  lemma OnlyThatCard(cards: seq<Card>, card: Card, destination: Id, target: Option<Card>)
    requires DistinctIds(cards) && card in cards
    ensures var after := Dropped(cards, card, destination, target);
            && |after| == |cards|
            && forall i :: 0 <= i < |cards| ==>
                 if cards[i] == card
                 then after[i].id == card.id && after[i].column == destination && after[i].version == card.version + 1
                 else after[i] == cards[i]
  {
    SameIdSameCard(cards, card);
  }

  ghost predicate OnlyAt(ids: seq<Id>, id: Id, k: int) {
    0 <= k < |ids| && ids[k] == id && forall i :: 0 <= i < |ids| && i != k ==> ids[i] != id
  }

  /** `after` is `before` without `id`, everything else in its old order. */
  ghost predicate TakenOut(before: seq<Id>, after: seq<Id>, id: Id) {
    && id !in after && (id !in before ==> after == before)
    && forall k :: OnlyAt(before, id, k) ==> after == before[..k] + before[k + 1..]
  }

  lemma {:induction false} WithoutAbsent(ids: seq<Id>, id: Id)
    ensures id !in IdWithout(ids, id)
    ensures id !in ids ==> IdWithout(ids, id) == ids
  {
    if ids != [] {
      WithoutAbsent(ids[1..], id);
      assert ids == [ids[0]] + ids[1..];
    }
  }

  lemma {:induction false} WithoutAt(ids: seq<Id>, id: Id, k: nat)
    requires OnlyAt(ids, id, k)
    ensures IdWithout(ids, id) == ids[..k] + ids[k + 1..]
  {
    var rest := ids[1..];
    if k == 0 {
      WithoutAbsent(rest, id);
    } else {
      WithoutAt(rest, id, k - 1);
      assert [ids[0]] + rest[..k - 1] == ids[..k];
    }
  }

  lemma WithoutTakesOut(ids: seq<Id>, id: Id)
    ensures TakenOut(ids, IdWithout(ids, id), id)
  {
    WithoutAbsent(ids, id);
    forall k | OnlyAt(ids, id, k)
      ensures IdWithout(ids, id) == ids[..k] + ids[k + 1..]
    {
      WithoutAt(ids, id, k);
    }
  }

  lemma {:induction false} IndexSplits(ids: seq<Id>, id: Id)
    ensures id in ids <==> IdIndex(ids, id) < |ids|
    ensures id in ids ==> ids[IdIndex(ids, id)] == id
  {
    if ids != [] && ids[0] != id {
      IndexSplits(ids[1..], id);
    }
  }

  lemma {:induction false} WithoutKeepsOthers(ids: seq<Id>, id: Id, other: Id)
    requires other != id
    ensures other in IdWithout(ids, id) <==> other in ids
  {
    if ids != [] {
      WithoutKeepsOthers(ids[1..], id, other);
    }
  }

  /** The card stands immediately in front of the target, or last when there is none, among the
      others in their old order. */
  ghost predicate LandsAt(before: seq<Id>, after: seq<Id>, card: Id, target: Option<Id>, k: int) {
    && 0 <= k < |after| && after[k] == card && TakenOut(before, after[..k] + after[k + 1..], card)
    && match target
       case None => k == |after| - 1
       case Some(t) => k + 1 < |after| && after[k + 1] == t
  }

  ghost predicate Lands(before: seq<Id>, after: seq<Id>, card: Id, target: Option<Id>) {
    exists k :: LandsAt(before, after, card, target, k)
  }

  lemma InsertedLands(ids: seq<Id>, rest: seq<Id>, card: Id, target: Option<Id>, k: nat)
    requires TakenOut(ids, rest, card) && k <= |rest|
    requires if target.Some? then k < |rest| && rest[k] == target.value else k == |rest|
    ensures Lands(ids, rest[..k] + [card] + rest[k..], card, target)
  {
    var after := rest[..k] + [card] + rest[k..];
    assert after[..k] + after[k + 1..] == rest;
    assert LandsAt(ids, after, card, target, k);
  }

  lemma ListDropLands(ids: seq<Id>, d: Drop)
    requires d.target.Some? ==> d.target.value in ids && d.target.value != d.card
    ensures Lands(ids, ListDrop(ids, d, d.destination), d.card, d.target)
  {
    WithoutTakesOut(ids, d.card);
    var rest := IdWithout(ids, d.card);
    if d.target.Some? {
      WithoutKeepsOthers(ids, d.card, d.target.value);
      IndexSplits(rest, d.target.value);
      InsertedLands(ids, rest, d.card, d.target, IdIndex(rest, d.target.value));
    } else {
      InsertedLands(ids, rest, d.card, d.target, |rest|);
    }
  }

  /** Halfway between its neighbours, 1000 away from its only neighbour, or at 1000 when it is alone. */
  predicate WellPlaced(shown: seq<Card>, k: nat)
    requires k < |shown|
  {
    shown[k].position
    == if |shown| == 1 then 1000.0
       else if k == |shown| - 1 then shown[k - 1].position + 1000.0
       else if k == 0 then shown[1].position - 1000.0
       else (shown[k - 1].position + shown[k + 1].position) / 2.0
  }

  lemma InsertedWellPlaced(others: seq<Card>, target: Option<Card>, c: Card)
    requires target.Some? ==> Slot(others, target) < |others| && others[Slot(others, target)] == target.value
    requires c.position == NewPosition(others, target)
    ensures WellPlaced(InsertAt(others, Slot(others, target), c), Slot(others, target))
  {
  }

  lemma InsertedAt(others: seq<Card>, k: nat, c: Card, i: nat)
    requires k <= |others| && i <= |others| && InsertAt(others, k, c)[i].id == c.id
    requires forall x :: x in others ==> x.id != c.id
    ensures i == k
  {
    assert forall j :: 0 <= j < |others| ==> others[j].id != c.id;
  }

  /** Wherever the destination column shows the dropped card, it is well placed there. */
  lemma PositionOfDrop(cards: seq<Card>, card: Card, destination: Id, target: Option<Card>, k: nat)
    requires DistinctIds(cards) && card in cards && Increasing(Shown(cards, destination))
    requires target.Some? ==> target.value in cards && target.value.column == destination && target.value.id != card.id
    requires k < |Shown(Dropped(cards, card, destination, target), destination)|
    requires Shown(Dropped(cards, card, destination, target), destination)[k].id == card.id
    ensures WellPlaced(Shown(Dropped(cards, card, destination, target), destination), k)
  {
    var moved := MovedCard(cards, card, destination, target);
    var others := Without(Shown(cards, destination), card.id);
    DropInserts(cards, card, destination, target);
    CardsAfter(cards, card, moved, destination);
    InsertedAt(others, Slot(others, target), moved, k);
    if target.Some? {
      SameIdSameCard(cards, target.value);
      IndexFound(others, target.value);
      assert others[k] in others;
    }
    InsertedWellPlaced(others, target, moved);
  }

  /** What one drop does to any column, in terms of the cards alone: an accepted drop of a card of the
      board on a column, or on another card, puts it there and takes it out of everywhere else; any
      other drop changes nothing. */
  lemma DropPlaces(columns: set<Id>, cards: seq<Card>, d: Drop, column: Id)
    requires Clean(columns, cards) && column in columns
    ensures var after := Apply(columns, cards, d);
            var sensible :=
              && d.destination in columns && (exists x :: x in cards && x.id == d.card)
              && (d.target.Some? ==> d.target.value != d.card
                                     && exists x :: x in cards && x.column == d.destination && x.id == d.target.value);
            if !sensible || !d.accepted then after == cards
            else if column == d.destination
            then Lands(Ids(Shown(cards, column)), Ids(Shown(after, column)), d.card, d.target)
            else TakenOut(Ids(Shown(cards, column)), Ids(Shown(after, column)), d.card)
  {
    SensibleIff(columns, cards, d);
    if Possible(columns, cards, d) && d.accepted {
      DropRefines(columns, cards, d, column);
      if d.target.Some? {
        TargetIff(cards, d.target.value, d.destination);
      }
      if column == d.destination {
        ListDropLands(Ids(Shown(cards, column)), d);
      } else {
        WithoutTakesOut(Ids(Shown(cards, column)), d.card);
      }
    }
  }

  lemma SensibleIff(columns: set<Id>, cards: seq<Card>, d: Drop)
    requires DistinctIds(cards)
    ensures Possible(columns, cards, d) <==>
            && d.destination in columns && (exists x :: x in cards && x.id == d.card)
            && (d.target.Some? ==> d.target.value != d.card
                                   && exists x :: x in cards && x.column == d.destination && x.id == d.target.value)
  {
    if x :| x in cards && x.id == d.card {
      FoundCard(cards, x);
    }
    if IndexOf(cards, d.card) < |cards| {
      assert cards[IndexOf(cards, d.card)] in cards;
    }
    if d.target.Some? {
      TargetIff(cards, d.target.value, d.destination);
      ShownIds(cards, d.destination, d.target.value);
    }
  }
}
