/**
 * Routing cards (src/domain/routing-cards.ts): the order of the cards, then of
 * the rows on each, is the persisted routing priority. Every edit is a surgery
 * on that list; null answers are None.
 */
module RoutingCards {
  import opened Lists

  datatype Card = Card(id: string, destination: string, credentials: seq<string>)

  datatype Move = Up | Down | Top | Bottom

  // ---- The edits ------------------------------------------------------------------

  /** Array.find by id, as a position. */
  function FindCard(cards: seq<Card>, id: string): (i: nat)
    ensures i <= |cards|
    ensures i < |cards| ==> cards[i].id == id
    ensures forall j :: 0 <= j < i ==> cards[j].id != id
  {
    if cards == [] || cards[0].id == id then 0 else 1 + FindCard(cards[1..], id)
  }

  function AddEmptyCard(cards: seq<Card>, blank: Card, anchor: string): seq<Card> {
    var i := FindCard(cards, anchor);
    if i < |cards| then InsertAt(cards, i + 1, blank) else cards + [blank]
  }

  /** What the loop has built after i cards, when the anchor is at position `at`. */
  ghost function AddedUpTo(cards: seq<Card>, blank: Card, at: nat, i: nat): seq<Card>
    requires i <= |cards|
  {
    if at < i then InsertAt(cards[..i], at + 1, blank) else cards[..i]
  }

  lemma AddedOneMore(cards: seq<Card>, blank: Card, at: nat, i: nat)
    requires i < |cards|
    ensures AddedUpTo(cards, blank, at, i + 1) == AddedUpTo(cards, blank, at, i) + [cards[i]] + if at == i then [blank] else []
  {
    assert cards[..i + 1] == cards[..i] + [cards[i]];
  }

  /** An empty card right after the first card called `anchor`, or at the end; `newId` is the id generated for it. */
  method AddEmptyCardAfter(cards: seq<Card>, destination: string, anchor: string, newId: string) returns (next: seq<Card>)
    ensures next == AddEmptyCard(cards, Card(newId, destination, []), anchor)
    ensures |next| == |cards| + 1
    ensures var k := if FindCard(cards, anchor) < |cards| then FindCard(cards, anchor) + 1 else |cards|;
      next[k] == Card(newId, destination, []) && RemoveAt(next, k) == cards
  {
    next := [];
    var blank := Card(newId, destination, []);
    var inserted := false;
    ghost var at := FindCard(cards, anchor);
    for i := 0 to |cards|
      invariant inserted <==> at < i
      invariant next == AddedUpTo(cards, blank, at, i)
    {
      AddedOneMore(cards, blank, at, i);
      next := next + [cards[i]];
      if !inserted && cards[i].id == anchor {
        next := next + [blank];
        inserted := true;
      }
    }
    assert cards[..|cards|] == cards;
    if !inserted { next := next + [blank]; }
  }

  function RemoveEmptyCard(cards: seq<Card>, id: string): Option<seq<Card>> {
    var i := FindCard(cards, id);
    if i == |cards| || cards[i].credentials != [] then None
    else if !(exists j :: 0 <= j < |cards| && cards[j].destination == cards[i].destination && cards[j].id != id) then None
    else Some(WithoutCard(cards, id))
  }

  function WithoutCard(cards: seq<Card>, id: string): seq<Card> {
    if cards == [] then [] else (if cards[0].id == id then [] else [cards[0]]) + WithoutCard(cards[1..], id)
  }

  /** Position of the first card that holds the credential. */
  function Holder(cards: seq<Card>, credential: string): (i: nat)
    ensures i <= |cards|
    ensures i < |cards| ==> credential in cards[i].credentials
    ensures forall j :: 0 <= j < i ==> credential !in cards[j].credentials
  {
    if cards == [] || credential in cards[0].credentials then 0 else 1 + Holder(cards[1..], credential)
  }

  /** Where an optional, possibly out-of-range insertion index lands in a list of this length. */
  function Clamp(index: Option<int>, length: nat): (at: nat)
    ensures at <= length
  {
    match index
    case None => length
    case Some(k) => if k < 0 then 0 else if k > length then length else k
  }

  function MoveCredentialToCard(cards: seq<Card>, credential: string, target: string, index: Option<int>): Option<seq<Card>> {
    var t, s := FindCard(cards, target), Holder(cards, credential);
    if t == |cards| || s == |cards| || cards[s].destination != cards[t].destination then None
    else Some(seq(|cards|, i requires 0 <= i < |cards| => Received(cards[i], credential, target, index)))
  }

  function Received(card: Card, credential: string, target: string, index: Option<int>): Card {
    var rest := Without(card.credentials, credential);
    card.(credentials := if card.id == target then InsertAt(rest, Clamp(index, |rest|), credential) else rest)
  }

  /** moveItem: unchanged when either index is out of range or they are equal. */
  function MoveItem<T>(items: seq<T>, from: int, to: int): seq<T> {
    if 0 <= from < |items| && 0 <= to < |items| && from != to then InsertAt(RemoveAt(items, from), to, items[from]) else items
  }

  function MoveCardInLayout(cards: seq<Card>, id: string, move: Move): Option<seq<Card>> {
    var from := FindCard(cards, id);
    if from == |cards| then None
    else
      var to := match move case Up => from - 1 case Down => from + 1 case Top => 0 case Bottom => |cards| - 1;
      if to == from || to < 0 || to >= |cards| then None else Some(MoveItem(cards, from, to))
  }

  function MoveCredentialWithinCard(cards: seq<Card>, id: string, credential: string, delta: int): Option<seq<Card>> {
    var i := FindCard(cards, id);
    if i == |cards| then None
    else
      var from := IndexOf(cards[i].credentials, credential);
      var to := from + delta;
      if from == |cards[i].credentials| || to < 0 || to >= |cards[i].credentials| then None
      else
        var moved := InsertAt(RemoveAt(cards[i].credentials, from), to, credential);
        Some(SetRows(cards, id, moved))
  }

  function SetRows(cards: seq<Card>, id: string, rows: seq<string>): seq<Card> {
    if cards == [] then []
    else [if cards[0].id == id then cards[0].(credentials := rows) else cards[0]] + SetRows(cards[1..], id, rows)
  }

  // ---- Runs of edits -----------------------------------------------------------------

  datatype Edit =
    | Add(destination: string, anchor: string, newId: string)
    | Remove(id: string)
    | Transfer(credential: string, target: string, index: Option<int>)
    | MoveCard(id: string, move: Move)
    | MoveRow(id: string, credential: string, delta: int)

  function Apply(cards: seq<Card>, e: Edit): Option<seq<Card>> {
    match e
    case Add(destination, anchor, newId) => Some(AddEmptyCard(cards, Card(newId, destination, []), anchor))
    case Remove(id) => RemoveEmptyCard(cards, id)
    case Transfer(credential, target, index) => MoveCredentialToCard(cards, credential, target, index)
    case MoveCard(id, move) => MoveCardInLayout(cards, id, move)
    case MoveRow(id, credential, delta) => MoveCredentialWithinCard(cards, id, credential, delta)
  }

  /** A new card's id is one no card has: it is a random UUID. */
  ghost predicate FreshId(cards: seq<Card>, e: Edit) {
    e.Add? ==> forall i :: 0 <= i < |cards| ==> cards[i].id != e.newId
  }

  // ---- What every run keeps --------------------------------------------------------------

  /** The saved routing priority: every credential, in order. */
  function Priority(cards: seq<Card>): seq<string> {
    if cards == [] then [] else cards[0].credentials + Priority(cards[1..])
  }

  ghost predicate DistinctIds(cards: seq<Card>) {
    forall i, j :: 0 <= i < j < |cards| ==> cards[i].id != cards[j].id
  }

  ghost predicate Owned(card: Card, owner: map<string, string>) {
    forall c :: c in card.credentials ==> c in owner && owner[c] == card.destination
  }

  /** Card ids are unique; every credential of `owner` is on exactly one card, once, and of its own destination. */
  ghost predicate Layout(cards: seq<Card>, owner: map<string, string>) {
    && DistinctIds(cards)
    && (forall card :: card in cards ==> Owned(card, owner))
    && multiset(Priority(cards)) == multiset(owner.Keys)
  }

  ghost predicate HasCard(cards: seq<Card>, destination: string) {
    exists card :: card in cards && card.destination == destination
  }

  /** Every destination that had a card still has one. */
  ghost predicate KeepsDestinations(before: seq<Card>, after: seq<Card>) {
    forall d :: HasCard(before, d) ==> HasCard(after, d)
  }

  lemma {:induction false} PriorityConcat(a: seq<Card>, b: seq<Card>)
    ensures Priority(a + b) == Priority(a) + Priority(b)
  {
    if a == [] {
      assert a + b == b;
    } else {
      assert (a + b)[1..] == a[1..] + b;
      PriorityConcat(a[1..], b);
    }
  }

  lemma PriorityAt(cards: seq<Card>, i: nat)
    requires i < |cards|
    ensures Priority(cards) == Priority(cards[..i]) + cards[i].credentials + Priority(cards[i + 1..])
  {
    var rest := cards[i..];
    assert cards == cards[..i] + rest;
    PriorityConcat(cards[..i], rest);
    assert rest[0] == cards[i] && rest[1..] == cards[i + 1..];
    assert Priority(rest) == cards[i].credentials + Priority(cards[i + 1..]);
  }

  lemma SplitPriority(cards: seq<Card>, i: nat)
    requires i <= |cards|
    ensures Priority(cards) == Priority(cards[..i]) + Priority(cards[i..])
  {
    assert cards == cards[..i] + cards[i..];
    PriorityConcat(cards[..i], cards[i..]);
  }

  lemma InsertedCard(cards: seq<Card>, i: nat, card: Card)
    requires i <= |cards|
    ensures Priority(InsertAt(cards, i, card)) == Priority(cards[..i]) + card.credentials + Priority(cards[i..])
    ensures Priority(cards) == Priority(cards[..i]) + Priority(cards[i..])
  {
    var next := InsertAt(cards, i, card);
    PriorityAt(next, i);
    assert next[..i] == cards[..i] && next[i + 1..] == cards[i..];
    SplitPriority(cards, i);
  }

  lemma InsertedCardItems(cards: seq<Card>, i: nat, card: Card)
    requires i <= |cards|
    ensures multiset(Priority(InsertAt(cards, i, card))) == multiset(Priority(cards)) + multiset(card.credentials)
  {
    InsertedCard(cards, i, card);
    var a, b := Priority(cards[..i]), Priority(cards[i..]);
    assert multiset(a + card.credentials + b) == multiset(a) + multiset(card.credentials) + multiset(b);
  }

  lemma AddedIsInserted(cards: seq<Card>, blank: Card, anchor: string) returns (k: nat)
    ensures k <= |cards| && AddEmptyCard(cards, blank, anchor) == InsertAt(cards, k, blank)
  {
    var i := FindCard(cards, anchor);
    k := if i < |cards| then i + 1 else |cards|;
    assert InsertAt(cards, |cards|, blank) == cards + [blank];
  }

  /** An empty card changes nothing about the priority. */
  lemma AddKeepsPriority(cards: seq<Card>, destination: string, anchor: string, newId: string)
    ensures Priority(AddEmptyCard(cards, Card(newId, destination, []), anchor)) == Priority(cards)
  {
    var k := AddedIsInserted(cards, Card(newId, destination, []), anchor);
    InsertedCard(cards, k, Card(newId, destination, []));
  }

  lemma AddKeepsLayout(cards: seq<Card>, owner: map<string, string>, destination: string, anchor: string, newId: string)
    requires Layout(cards, owner) && FreshId(cards, Add(destination, anchor, newId))
    ensures var next := AddEmptyCard(cards, Card(newId, destination, []), anchor);
      Layout(next, owner) && KeepsDestinations(cards, next) && HasCard(next, destination)
  {
    var blank := Card(newId, destination, []);
    var k := AddedIsInserted(cards, blank, anchor);
    CardInserted(cards, k, blank);
    AddKeepsPriority(cards, destination, anchor, newId);
  }

  lemma {:induction false} WithoutCardIsRemoveAt(cards: seq<Card>, i: nat)
    requires DistinctIds(cards) && i < |cards|
    ensures WithoutCard(cards, cards[i].id) == RemoveAt(cards, i)
  {
    if i == 0 {
      NoCardRemoved(cards[1..], cards[0].id);
      assert RemoveAt(cards, 0) == cards[1..];
    } else {
      WithoutCardIsRemoveAt(cards[1..], i - 1);
      assert RemoveAt(cards, i) == [cards[0]] + RemoveAt(cards[1..], i - 1);
    }
  }

  lemma {:induction false} NoCardRemoved(cards: seq<Card>, id: string)
    requires forall i :: 0 <= i < |cards| ==> cards[i].id != id
    ensures WithoutCard(cards, id) == cards
  {
    if cards != [] { NoCardRemoved(cards[1..], id); }
  }

  lemma RemoveKeepsLayout(cards: seq<Card>, owner: map<string, string>, id: string)
    requires Layout(cards, owner) && RemoveEmptyCard(cards, id).Some?
    ensures var next := RemoveEmptyCard(cards, id).value;
      Layout(next, owner) && KeepsDestinations(cards, next) && Priority(next) == Priority(cards)
  {
    var i := FindCard(cards, id);
    WithoutCardIsRemoveAt(cards, i);
    var next := RemoveAt(cards, i);
    assert Priority(next) == Priority(cards) by {
      InsertedCard(next, i, cards[i]);
      InsertingBack(cards, i);
    }
    RemovedCards(cards, i);
    var sibling :| sibling in cards && sibling.destination == cards[i].destination && sibling.id != id;
    assert sibling in next;
  }

  /** What is true of the cards is true of them in any order. */
  lemma RemovedCards(cards: seq<Card>, i: nat)
    requires DistinctIds(cards) && i < |cards|
    ensures DistinctIds(RemoveAt(cards, i))
    ensures forall k :: 0 <= k < |cards| - 1 ==> RemoveAt(cards, i)[k].id != cards[i].id
    ensures forall card :: card in RemoveAt(cards, i) <==> card in cards && card != cards[i]
  {
    RemoveAtKeepsTheRest(cards, i);
  }

  lemma MoveCardKeepsLayout(cards: seq<Card>, owner: map<string, string>, id: string, move: Move)
    requires Layout(cards, owner) && MoveCardInLayout(cards, id, move).Some?
    ensures var next := MoveCardInLayout(cards, id, move).value;
      && Layout(next, owner) && KeepsDestinations(cards, next)
      && WithoutCard(next, id) == WithoutCard(cards, id)
  {
    var from := FindCard(cards, id);
    var to := match move case Up => from - 1 case Down => from + 1 case Top => 0 case Bottom => |cards| - 1;
    CardMoved(cards, owner, from, to);
  }

  lemma CardMoved(cards: seq<Card>, owner: map<string, string>, from: nat, to: nat)
    requires Layout(cards, owner) && from < |cards| && to < |cards|
    ensures var next := InsertAt(RemoveAt(cards, from), to, cards[from]);
      && Layout(next, owner) && KeepsDestinations(cards, next)
      && WithoutCard(next, cards[from].id) == WithoutCard(cards, cards[from].id)
  {
    var card, rest := cards[from], RemoveAt(cards, from);
    MovedCardItems(cards, from, to);
    RemovedCards(cards, from);
    CardInserted(rest, to, card);
    MovedCardAside(cards, from, to);
    SameCards(cards, InsertAt(rest, to, card), owner);
  }

  lemma SameCards(cards: seq<Card>, next: seq<Card>, owner: map<string, string>)
    requires forall c :: c in cards <==> c in next
    requires forall card :: card in cards ==> Owned(card, owner)
    ensures KeepsDestinations(cards, next) && forall card :: card in next ==> Owned(card, owner)
  {
  }

  lemma MovedCardItems(cards: seq<Card>, from: nat, to: nat)
    requires from < |cards| && to < |cards|
    ensures multiset(Priority(InsertAt(RemoveAt(cards, from), to, cards[from]))) == multiset(Priority(cards))
  {
    InsertedCardItems(RemoveAt(cards, from), from, cards[from]);
    InsertingBack(cards, from);
    InsertedCardItems(RemoveAt(cards, from), to, cards[from]);
  }

  lemma MovedCardAside(cards: seq<Card>, from: nat, to: nat)
    requires DistinctIds(cards) && from < |cards| && to < |cards|
    requires DistinctIds(InsertAt(RemoveAt(cards, from), to, cards[from]))
    ensures WithoutCard(InsertAt(RemoveAt(cards, from), to, cards[from]), cards[from].id) == WithoutCard(cards, cards[from].id)
  {
    var rest := RemoveAt(cards, from);
    var next := InsertAt(rest, to, cards[from]);
    RemovingTheInserted(rest, to, cards[from]);
    WithoutCardIsRemoveAt(next, to);
    WithoutCardIsRemoveAt(cards, from);
  }

  lemma CardInserted(cards: seq<Card>, i: nat, card: Card)
    requires DistinctIds(cards) && i <= |cards| && forall k :: 0 <= k < |cards| ==> cards[k].id != card.id
    ensures DistinctIds(InsertAt(cards, i, card))
    ensures forall c :: c in InsertAt(cards, i, card) <==> c in cards || c == card
  {
    var next := InsertAt(cards, i, card);
    forall c | c in cards ensures c in next {
      var k :| 0 <= k < |cards| && cards[k] == c;
      assert next[if k < i then k else k + 1] == c;
    }
    assert next[i] == card;
  }

  /** Taking a credential off every card takes it out of the priority and nothing else. */
  function Stripped(cards: seq<Card>, credential: string): seq<Card> {
    seq(|cards|, i requires 0 <= i < |cards| => cards[i].(credentials := Without(cards[i].credentials, credential)))
  }

  lemma {:induction false} StrippedPriority(cards: seq<Card>, c: string)
    ensures Priority(Stripped(cards, c)) == Without(Priority(cards), c)
  {
    if cards != [] {
      assert Stripped(cards, c)[1..] == Stripped(cards[1..], c);
      StrippedPriority(cards[1..], c);
      WithoutConcat(cards[0].credentials, Priority(cards[1..]), c);
    }
  }

  /** Replacing one card's rows replaces just that stretch of the priority. */
  lemma ReplacedRows(cards: seq<Card>, i: nat, rows: seq<string>)
    requires i < |cards|
    ensures Priority(cards) == Priority(cards[..i]) + cards[i].credentials + Priority(cards[i + 1..])
    ensures Priority(cards[i := cards[i].(credentials := rows)]) == Priority(cards[..i]) + rows + Priority(cards[i + 1..])
  {
    var next := cards[i := cards[i].(credentials := rows)];
    PriorityAt(cards, i);
    PriorityAt(next, i);
    assert next[..i] == cards[..i] && next[i + 1..] == cards[i + 1..];
  }

  /** Rows that differ only in where `c` stands leave everyone else's relative order alone. */
  lemma OthersKeepOrder(cards: seq<Card>, i: nat, rows: seq<string>, c: string)
    requires i < |cards| && Without(rows, c) == Without(cards[i].credentials, c)
    ensures Without(Priority(cards[i := cards[i].(credentials := rows)]), c) == Without(Priority(cards), c)
  {
    var a, b := Priority(cards[..i]), Priority(cards[i + 1..]);
    ReplacedRows(cards, i, rows);
    WithoutConcat(a + rows, b, c);
    WithoutConcat(a, rows, c);
    WithoutConcat(a + cards[i].credentials, b, c);
    WithoutConcat(a, cards[i].credentials, c);
  }

  lemma RowsItems(cards: seq<Card>, i: nat, rows: seq<string>)
    requires i < |cards|
    ensures multiset(Priority(cards[i := cards[i].(credentials := rows)])) + multiset(cards[i].credentials)
      == multiset(Priority(cards)) + multiset(rows)
  {
    var a, b := Priority(cards[..i]), Priority(cards[i + 1..]);
    ReplacedRows(cards, i, rows);
    assert multiset(a + rows + b) == multiset(a) + multiset(rows) + multiset(b);
    assert multiset(a + cards[i].credentials + b) == multiset(a) + multiset(cards[i].credentials) + multiset(b);
  }

  lemma TransferIsReplacement(cards: seq<Card>, credential: string, target: string, index: Option<int>)
    requires DistinctIds(cards) && MoveCredentialToCard(cards, credential, target, index).Some?
    ensures var t := FindCard(cards, target);
      var s := Stripped(cards, credential);
      var rest := s[t].credentials;
      MoveCredentialToCard(cards, credential, target, index).value
        == s[t := s[t].(credentials := InsertAt(rest, Clamp(index, |rest|), credential))]
  {
  }

  /**
   * A transfer keeps the layout, keeps everyone else's relative order, and puts
   * the credential at the requested place of the target card.
   */
  lemma TransferKeepsLayout(cards: seq<Card>, owner: map<string, string>, credential: string, target: string, index: Option<int>)
    requires Layout(cards, owner) && MoveCredentialToCard(cards, credential, target, index).Some?
    ensures var next := MoveCredentialToCard(cards, credential, target, index).value;
      && Layout(next, owner) && KeepsDestinations(cards, next)
      && Without(Priority(next), credential) == Without(Priority(cards), credential)
  {
    var next := MoveCredentialToCard(cards, credential, target, index).value;
    var t, s := FindCard(cards, target), Stripped(cards, credential);
    var rest := s[t].credentials;
    var rows := InsertAt(rest, Clamp(index, |rest|), credential);
    TransferIsReplacement(cards, credential, target, index);
    assert Without(Priority(next), credential) == Without(Priority(cards), credential) by {
      WithoutInserted(rest, Clamp(index, |rest|), credential);
      OthersKeepOrder(s, t, rows, credential);
      StrippedPriority(cards, credential);
      WithoutTwice(Priority(cards), credential);
    }
    TransferKeepsItems(cards, owner, credential, target, index);
    TransferKeepsOwners(cards, owner, credential, target, index);
  }

  lemma TransferKeepsItems(cards: seq<Card>, owner: map<string, string>, credential: string, target: string, index: Option<int>)
    requires Layout(cards, owner) && MoveCredentialToCard(cards, credential, target, index).Some?
    ensures multiset(Priority(MoveCredentialToCard(cards, credential, target, index).value)) == multiset(Priority(cards))
  {
    var next := MoveCredentialToCard(cards, credential, target, index).value;
    var t, s := FindCard(cards, target), Stripped(cards, credential);
    var rest := s[t].credentials;
    var rows := InsertAt(rest, Clamp(index, |rest|), credential);
    var p := multiset(Priority(cards));
    assert p[credential := 0] + multiset{credential} == p by { HeldOnce(cards, owner, credential); }
    assert multiset(Priority(s)) == p[credential := 0] by {
      StrippedPriority(cards, credential);
      WithoutDropsAll(Priority(cards), credential);
    }
    assert multiset(Priority(next)) + multiset(rest) == multiset(Priority(s)) + multiset(rows) by {
      TransferIsReplacement(cards, credential, target, index);
      RowsItems(s, t, rows);
    }
    InsertedItems(rest, Clamp(index, |rest|), credential);
    CancelItems(multiset(Priority(next)), p, multiset(rest));
  }

  lemma WithoutTwice<T>(s: seq<T>, x: T)
    ensures Without(Without(s, x), x) == Without(s, x)
  {
    WithoutDropsAll(s, x);
    assert multiset(Without(s, x))[x] == 0;
    WithoutDropsAll(Without(s, x), x);
  }

  lemma {:induction false} HeldMeansListed(cards: seq<Card>, c: string)
    ensures Holder(cards, c) < |cards| <==> c in Priority(cards)
  {
    if cards != [] {
      HeldMeansListed(cards[1..], c);
    }
  }

  lemma HeldOnce(cards: seq<Card>, owner: map<string, string>, c: string)
    requires Layout(cards, owner) && Holder(cards, c) < |cards|
    ensures multiset(Priority(cards))[c] == 1
  {
    HeldMeansListed(cards, c);
    assert c in multiset(Priority(cards));
  }

  lemma ReceivedIsOwned(card: Card, owner: map<string, string>, credential: string, target: string, index: Option<int>)
    requires Owned(card, owner)
    requires card.id == target ==> credential in owner && owner[credential] == card.destination
    ensures Owned(Received(card, credential, target, index), owner)
  {
    var rest := Without(card.credentials, credential);
    WithoutMembers(card.credentials, credential);
    if card.id == target { InsertedMembers(rest, Clamp(index, |rest|), credential); }
  }

  lemma TransferKeepsOwners(cards: seq<Card>, owner: map<string, string>, credential: string, target: string, index: Option<int>)
    requires Layout(cards, owner) && MoveCredentialToCard(cards, credential, target, index).Some?
    ensures var next := MoveCredentialToCard(cards, credential, target, index).value;
      && DistinctIds(next) && KeepsDestinations(cards, next)
      && (forall card :: card in next ==> Owned(card, owner))
  {
    var next := MoveCredentialToCard(cards, credential, target, index).value;
    var holder, t := cards[Holder(cards, credential)], FindCard(cards, target);
    assert holder in cards && Owned(holder, owner) && credential in holder.credentials;
    forall k | 0 <= k < |next| ensures Owned(next[k], owner) {
      assert cards[k] in cards && Owned(cards[k], owner);
      assert cards[k].id == target ==> k == t;
      ReceivedIsOwned(cards[k], owner, credential, target, index);
    }
    SamePlaces(cards, next);
  }

  lemma SamePlaces(cards: seq<Card>, next: seq<Card>)
    requires |next| == |cards| && forall k :: 0 <= k < |cards| ==> next[k].destination == cards[k].destination
    ensures KeepsDestinations(cards, next)
  {
    forall d | HasCard(cards, d) ensures HasCard(next, d) {
      var k :| 0 <= k < |cards| && cards[k].destination == d;
      assert next[k] in next;
    }
  }

  lemma {:induction false} SetRowsIsUpdate(cards: seq<Card>, i: nat, rows: seq<string>)
    requires DistinctIds(cards) && i < |cards|
    ensures SetRows(cards, cards[i].id, rows) == cards[i := cards[i].(credentials := rows)]
  {
    if i == 0 {
      NoRowsSet(cards[1..], cards[0].id, rows);
    } else {
      SetRowsIsUpdate(cards[1..], i - 1, rows);
    }
  }

  lemma {:induction false} NoRowsSet(cards: seq<Card>, id: string, rows: seq<string>)
    requires forall i :: 0 <= i < |cards| ==> cards[i].id != id
    ensures SetRows(cards, id, rows) == cards
  {
    if cards != [] { NoRowsSet(cards[1..], id, rows); }
  }

  /** Reordering one card's rows. */
  lemma ReorderingKeepsLayout(cards: seq<Card>, owner: map<string, string>, i: nat, rows: seq<string>)
    requires Layout(cards, owner) && i < |cards| && multiset(rows) == multiset(cards[i].credentials)
    ensures var next := cards[i := cards[i].(credentials := rows)];
      Layout(next, owner) && KeepsDestinations(cards, next)
  {
    var next := cards[i := cards[i].(credentials := rows)];
    assert multiset(Priority(next)) == multiset(Priority(cards)) by {
      RowsItems(cards, i, rows);
      CancelItems(multiset(Priority(next)), multiset(Priority(cards)), multiset(rows));
    }
    assert cards[i] in cards && Owned(cards[i], owner);
    assert Owned(next[i], owner) by {
      forall c | c in rows ensures c in cards[i].credentials { assert c in multiset(cards[i].credentials); }
    }
    forall card | card in next ensures Owned(card, owner) {
      assert card in cards || card == next[i];
    }
    SamePlaces(cards, next);
  }

  lemma MoveRowKeepsLayout(cards: seq<Card>, owner: map<string, string>, id: string, credential: string, delta: int)
    requires Layout(cards, owner) && MoveCredentialWithinCard(cards, id, credential, delta).Some?
    ensures var next := MoveCredentialWithinCard(cards, id, credential, delta).value;
      && Layout(next, owner) && KeepsDestinations(cards, next)
      && Without(Priority(next), credential) == Without(Priority(cards), credential)
  {
    var i := FindCard(cards, id);
    var rows := cards[i].credentials;
    var from := IndexOf(rows, credential);
    var moved := InsertAt(RemoveAt(rows, from), from + delta, credential);
    MovedRows(rows, from, from + delta);
    var next := cards[i := cards[i].(credentials := moved)];
    assert Layout(next, owner) && KeepsDestinations(cards, next) by { ReorderingKeepsLayout(cards, owner, i, moved); }
    assert Without(Priority(next), credential) == Without(Priority(cards), credential) by { OthersKeepOrder(cards, i, moved, credential); }
    assert MoveCredentialWithinCard(cards, id, credential, delta) == Some(next) by { SetRowsIsUpdate(cards, i, moved); }
  }

  lemma MovedRows<T>(rows: seq<T>, from: nat, to: nat)
    requires from < |rows| && to < |rows|
    ensures multiset(InsertAt(RemoveAt(rows, from), to, rows[from])) == multiset(rows)
    ensures Without(InsertAt(RemoveAt(rows, from), to, rows[from]), rows[from]) == Without(rows, rows[from])
  {
    var rest := RemoveAt(rows, from);
    WithoutRemoved(rows, from);
    WithoutInserted(rest, to, rows[from]);
    InsertedItems(rest, to, rows[from]);
    InsertedItems(rest, from, rows[from]);
    InsertingBack(rows, from);
  }

  // ---- Runs --------------------------------------------------------------------------------

  /** The edits happen in order; one that is refused, or that reuses a card id, ends the run. */
  ghost function Run(cards: seq<Card>, es: seq<Edit>): Option<seq<Card>> {
    if es == [] then Some(cards)
    else
      var before := Run(cards, es[..|es| - 1]);
      if before.None? || !FreshId(before.value, es[|es| - 1]) then None else Apply(before.value, es[|es| - 1])
  }

  lemma EditKeepsLayout(cards: seq<Card>, owner: map<string, string>, e: Edit)
    requires Layout(cards, owner) && FreshId(cards, e) && Apply(cards, e).Some?
    ensures Layout(Apply(cards, e).value, owner) && KeepsDestinations(cards, Apply(cards, e).value)
  {
    match e {
      case Add(destination, anchor, newId) => AddKeepsLayout(cards, owner, destination, anchor, newId);
      case Remove(id) => RemoveKeepsLayout(cards, owner, id);
      case Transfer(credential, target, index) => TransferKeepsLayout(cards, owner, credential, target, index);
      case MoveCard(id, move) => MoveCardKeepsLayout(cards, owner, id, move);
      case MoveRow(id, credential, delta) => MoveRowKeepsLayout(cards, owner, id, credential, delta);
    }
  }

  /** Any run of accepted edits keeps card ids unique, every credential on one card of its own destination, and every destination a card. */
  lemma {:induction false} RunsKeepLayout(cards: seq<Card>, owner: map<string, string>, es: seq<Edit>)
    requires Layout(cards, owner) && Run(cards, es).Some?
    ensures Layout(Run(cards, es).value, owner) && KeepsDestinations(cards, Run(cards, es).value)
  {
    if es != [] {
      RunsKeepLayout(cards, owner, es[..|es| - 1]);
      EditKeepsLayout(Run(cards, es[..|es| - 1]).value, owner, es[|es| - 1]);
    }
  }

  // ---- Where things land, and undoing ----------------------------------------------------------

  /** A transferred credential stands at the clamped index among the target's other rows. */
  lemma TransferLands(cards: seq<Card>, credential: string, target: string, index: Option<int>)
    requires DistinctIds(cards) && MoveCredentialToCard(cards, credential, target, index).Some?
    ensures var t := FindCard(cards, target);
      var rows := MoveCredentialToCard(cards, credential, target, index).value[t].credentials;
      var others := Without(cards[t].credentials, credential);
      && Without(rows, credential) == others && |rows| == |others| + 1
      && IndexOf(rows, credential) ==
           (if index.None? || index.value > |others| then |others| else if index.value < 0 then 0 else index.value)
  {
    var rows := cards[FindCard(cards, target)].credentials;
    LandsAt(rows, credential, Clamp(index, |Without(rows, credential)|));
  }

  lemma LandsAt<T>(rows: seq<T>, x: T, at: nat)
    requires at <= |Without(rows, x)|
    ensures var next := InsertAt(Without(rows, x), at, x);
      Without(next, x) == Without(rows, x) && IndexOf(next, x) == at
  {
    var rest := Without(rows, x);
    var next := InsertAt(rest, at, x);
    WithoutInserted(rest, at, x);
    WithoutTwice(rows, x);
    WithoutMembers(rows, x);
    assert next[at] == x && forall j :: 0 <= j < at ==> next[j] in rest;
  }

  /** A transfer touches nothing else: every card keeps its place, id, destination and other rows. */
  lemma TransferTouchesNothingElse(cards: seq<Card>, credential: string, target: string, index: Option<int>, k: nat)
    requires k < |cards| && MoveCredentialToCard(cards, credential, target, index).Some?
    ensures var next := MoveCredentialToCard(cards, credential, target, index).value;
      && |next| == |cards| && next[k].id == cards[k].id && next[k].destination == cards[k].destination
      && Without(next[k].credentials, credential) == Without(cards[k].credentials, credential)
      && (credential in next[k].credentials <==> cards[k].id == target)
  {
    var rest := Without(cards[k].credentials, credential);
    WithoutTwice(cards[k].credentials, credential);
    WithoutMembers(cards[k].credentials, credential);
    WithoutInserted(rest, Clamp(index, |rest|), credential);
    InsertedMembers(rest, Clamp(index, |rest|), credential);
  }

  /** What moving a row does, by positions. */
  lemma MovingARow(cards: seq<Card>, i: nat, from: nat, to: nat)
    requires DistinctIds(cards) && i < |cards| && Distinct(cards[i].credentials)
    requires from < |cards[i].credentials| && to < |cards[i].credentials|
    ensures MoveCredentialWithinCard(cards, cards[i].id, cards[i].credentials[from], to - from)
         == Some(cards[i := cards[i].(credentials := InsertAt(RemoveAt(cards[i].credentials, from), to, cards[i].credentials[from]))])
  {
    var rows := cards[i].credentials;
    assert FindCard(cards, cards[i].id) == i;
    assert IndexOf(rows, rows[from]) == from;
    SetRowsIsUpdate(cards, i, InsertAt(RemoveAt(rows, from), to, rows[from]));
  }

  /** Moving a row by delta, then by -delta, restores the layout. */
  lemma MoveRowUndone(cards: seq<Card>, id: string, credential: string, delta: int)
    requires DistinctIds(cards) && MoveCredentialWithinCard(cards, id, credential, delta).Some?
    requires Distinct(cards[FindCard(cards, id)].credentials)
    ensures MoveCredentialWithinCard(MoveCredentialWithinCard(cards, id, credential, delta).value, id, credential, -delta) == Some(cards)
  {
    var i := FindCard(cards, id);
    var rows := cards[i].credentials;
    var from := IndexOf(rows, credential);
    var to: nat := from + delta;
    var moved := InsertAt(RemoveAt(rows, from), to, credential);
    var next := cards[i := cards[i].(credentials := moved)];
    MovingARow(cards, i, from, to);
    MoveUndone(rows, from, to);
    MovedIsDistinct(rows, from, to);
    FoundInPlace(cards, i, moved);
    MovingARow(next, i, to, from);
    assert next[i := next[i].(credentials := rows)] == cards;
  }

  lemma MovedIsDistinct<T>(rows: seq<T>, from: nat, to: nat)
    requires Distinct(rows) && from < |rows| && to < |rows|
    ensures Distinct(InsertAt(RemoveAt(rows, from), to, rows[from]))
  {
    RemoveAtKeepsTheRest(rows, from);
    var rest := RemoveAt(rows, from);
    assert forall j :: 0 <= j < |rest| ==> rest[j] in rest;
  }

  lemma FoundInPlace(cards: seq<Card>, i: nat, rows: seq<string>)
    requires DistinctIds(cards) && i < |cards|
    ensures var next := cards[i := cards[i].(credentials := rows)];
      DistinctIds(next) && FindCard(next, cards[i].id) == i
  {
    var next := cards[i := cards[i].(credentials := rows)];
    assert forall j :: 0 <= j < |cards| ==> next[j].id == cards[j].id;
  }

  /** Up and Down are inverse. */
  lemma UpThenDown(cards: seq<Card>, id: string)
    requires DistinctIds(cards) && MoveCardInLayout(cards, id, Up).Some?
    ensures MoveCardInLayout(MoveCardInLayout(cards, id, Up).value, id, Down) == Some(cards)
  {
    var from := FindCard(cards, id);
    var next := InsertAt(RemoveAt(cards, from), from - 1, cards[from]);
    MoveUndone(cards, from, from - 1);
    assert forall j :: 0 <= j < from - 1 ==> next[j] == cards[j];
    assert FindCard(next, id) == from - 1;
  }

  // ---- When an edit is refused -----------------------------------------------------------------

  /** What is removed is exactly the one card of that id, and it was empty. */
  lemma RemovedIsGone(cards: seq<Card>, id: string)
    requires DistinctIds(cards) && RemoveEmptyCard(cards, id).Some?
    ensures var i := FindCard(cards, id);
      i < |cards| && cards[i].credentials == [] && RemoveEmptyCard(cards, id).value == RemoveAt(cards, i)
    ensures forall card :: card in RemoveEmptyCard(cards, id).value <==> card in cards && card.id != id
  {
    var i := FindCard(cards, id);
    WithoutCardIsRemoveAt(cards, i);
    RemovedCards(cards, i);
  }

  /** A card moves exactly when it exists and does not already stand where the move would take it. */
  lemma CardMoveIsAcceptedExactly(cards: seq<Card>, id: string, move: Move)
    ensures MoveCardInLayout(cards, id, move).Some? <==>
      && (exists j :: 0 <= j < |cards| && cards[j].id == id)
      && (if move == Up || move == Top then cards[0].id != id else FindCard(cards, id) != |cards| - 1)
  {
    var i := FindCard(cards, id);
    if i < |cards| { assert cards[i].id == id; }
  }

  /** A row moves exactly when its card holds it and the place asked for is on the card. */
  lemma RowMoveIsAcceptedExactly(cards: seq<Card>, id: string, credential: string, delta: int)
    ensures MoveCredentialWithinCard(cards, id, credential, delta).Some? <==>
      var i := FindCard(cards, id);
      && i < |cards| && credential in cards[i].credentials
      && 0 <= IndexOf(cards[i].credentials, credential) + delta < |cards[i].credentials|
  {
  }

  /** An empty card is refused removal exactly when its destination would be left without a card. */
  lemma RemovalIsRefusedExactly(cards: seq<Card>, i: nat)
    requires DistinctIds(cards) && i < |cards| && cards[i].credentials == []
    ensures RemoveEmptyCard(cards, cards[i].id).None? <==> !KeepsDestinations(cards, RemoveAt(cards, i))
  {
    assert FindCard(cards, cards[i].id) == i;
    RemovedCards(cards, i);
    var next := RemoveAt(cards, i);
    assert HasCard(cards, cards[i].destination) by { assert cards[i] in cards; }
    if j :| 0 <= j < |cards| && cards[j].destination == cards[i].destination && cards[j].id != cards[i].id {
      assert cards[j] in next;
      forall d | HasCard(cards, d) ensures HasCard(next, d) {
        var card :| card in cards && card.destination == d;
        assert card != cards[i] ==> card in next;
      }
    } else {
      forall card | card in next ensures card.destination != cards[i].destination {
        var k :| 0 <= k < |next| && next[k] == card;
        assert card in cards;
      }
      assert !HasCard(next, cards[i].destination);
    }
  }

  /** In a layout, a transfer is accepted exactly to a card of the credential's own destination. */
  lemma TransferIsAcceptedExactly(cards: seq<Card>, owner: map<string, string>, credential: string, t: nat, index: Option<int>)
    requires Layout(cards, owner) && t < |cards|
    ensures MoveCredentialToCard(cards, credential, cards[t].id, index).Some? <==>
      credential in owner && owner[credential] == cards[t].destination
  {
    assert FindCard(cards, cards[t].id) == t;
    HeldMeansListed(cards, credential);
    var s := Holder(cards, credential);
    if s < |cards| {
      assert cards[s] in cards && Owned(cards[s], owner);
    } else {
      assert credential !in multiset(Priority(cards));
      assert credential !in multiset(owner.Keys);
    }
  }

  /** A moved card stands one place up or down, or at the end it was sent to. */
  lemma CardLands(cards: seq<Card>, id: string, move: Move)
    requires DistinctIds(cards) && MoveCardInLayout(cards, id, move).Some?
    ensures var from, at := FindCard(cards, id), FindCard(MoveCardInLayout(cards, id, move).value, id);
      && at < |MoveCardInLayout(cards, id, move).value| == |cards| && MoveCardInLayout(cards, id, move).value[at] == cards[from]
      && (match move case Up => at == from - 1 case Down => at == from + 1 case Top => at == 0 case Bottom => at == |cards| - 1)
  {
    var from := FindCard(cards, id);
    var to: nat := match move case Up => from - 1 case Down => from + 1 case Top => 0 case Bottom => |cards| - 1;
    var next := InsertAt(RemoveAt(cards, from), to, cards[from]);
    assert next[to].id == id;
    forall j | 0 <= j < to ensures next[j].id != id {
      assert next[j] == cards[if j < from then j else j + 1];
    }
  }
}
