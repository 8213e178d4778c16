/**
 * The dealer's bookkeeping (Dealer.java): dealing the deck onto the table,
 * taking cards back, the queue of claims and its verdicts, the winners and the
 * countdown. Every step is one atomic transition of the combined game state.
 */
module Dealers {
  import opened Lists
  import opened States
  import opened Tables
  import Players

  /** TIMEOUT: the dealer's tick, by which each display update lowers the clock. */
  const Timeout: int := 50

  /** What a reset adds to start_time. */
  const ResetBonus: int := 999

  /**
   * The dealer with the table and players it drives. `queue` is
   * playersToCheck; `startTime` and `currTime` are start_time and curr_time.
   */
  datatype Dealer = Dealer(
    table: Table,
    players: seq<Players.Player>,
    deck: seq<Card>,
    queue: seq<nat>,
    tableHaveEmptySlots: bool,
    startTime: int,
    currTime: int)

  /** No card twice in the deck, and every deck card is a card id not on the table. */
  predicate DeckOffTable(t: Table, deck: seq<Card>)
  {
    && Distinct(deck)
    && forall i :: 0 <= i < |deck| ==> deck[i] < |t.cardToSlot| && t.cardToSlot[deck[i]] == None
  }

  /** Every token of every player lies on a slot of the table. */
  predicate TokensOnGrid(t: Table, players: seq<Players.Player>)
  {
    forall j, i :: 0 <= j < |players| && 0 <= i < |players[j].mySet| ==> players[j].mySet[i] < |t.slotToCard|
  }

  /** Player j sits at index j and keeps its own lists consistent. */
  predicate PlayersWellFormed(players: seq<Players.Player>)
  {
    forall j :: 0 <= j < |players| ==> players[j].id == j && Players.Valid(players[j])
  }

  /** The invariant every dealer step keeps. */
  predicate Valid(d: Dealer)
  {
    && Tables.Valid(d.table) && EmptyExact(d.table)
    && DeckOffTable(d.table, d.deck)
    && PlayersWellFormed(d.players)
    && TokensOnGrid(d.table, d.players)
    && forall i :: 0 <= i < |d.queue| ==> d.queue[i] < |d.players|
  }

  /**
   * Each player has at most one claim outstanding: the queued ids are
   * distinct seats, and each queued player is blocked in Waiting until the
   * dealer judges it. This is why a queue with room for one claim per player
   * never overflows.
   */
  predicate QueueSound(d: Dealer)
  {
    && Distinct(d.queue)
    && forall i :: 0 <= i < |d.queue| ==> d.queue[i] < |d.players| && d.players[d.queue[i]].state == Waiting
  }

  /**
   * The constructor, given the fresh table and players it is handed: the deck
   * holds every card id in order, nobody is queued, no slot is known empty yet
   * and both clock fields start at the turn timeout.
   */
  method NewDealer(tableSize: nat, deckSize: nat, playerCount: nat, turnTimeoutMillis: int) returns (d: Dealer)
    ensures Valid(d)
    ensures forall c: nat :: c in d.deck <==> c < deckSize
    ensures |d.deck| == deckSize
    ensures forall s :: 0 <= s < |d.table.slotToCard| ==> d.table.slotToCard[s] == None
    ensures |d.table.slotToCard| == tableSize && |d.players| == playerCount
    ensures forall j :: 0 <= j < playerCount ==> d.players[j].score == 0 && d.players[j].state == Playing
    ensures d.queue == [] && !d.tableHaveEmptySlots && !CanPlay(d.table)
    ensures QueueSound(d)
    ensures d.startTime == turnTimeoutMillis && d.currTime == turnTimeoutMillis
  {
    var t := NewTable(tableSize, deckSize);
    var players := seq(playerCount, j requires 0 <= j < playerCount => Players.NewPlayer(j, tableSize));
    d := Dealer(t, players, Range(deckSize), [], false, turnTimeoutMillis, turnTimeoutMillis);
  }

  /** All cards still in the game: those on the table and those in the deck. */
  function InPlay(t: Table, deck: seq<Card>): multiset<Card>
  {
    CardsOf(t.slotToCard) + multiset(deck)
  }

  function Min(a: nat, b: nat): nat
  {
    if a <= b then a else b
  }

  /**
   * placeCardsOnTable's loop: while there is an empty slot and a card, the
   * head of emptySlots receives the head of the deck.
   */
  function Deal(t: Table, deck: seq<Card>): (r: (Table, seq<Card>))
    requires forall i :: 0 <= i < |t.emptySlots| ==> t.emptySlots[i] < |t.slotToCard|
    requires forall i :: 0 <= i < |deck| ==> deck[i] < |t.cardToSlot|
    ensures |r.0.slotToCard| == |t.slotToCard| && |r.0.cardToSlot| == |t.cardToSlot|
    ensures r.0.canPlay == t.canPlay
    ensures r.0.emptySlots == t.emptySlots[Min(|t.emptySlots|, |deck|)..]
    ensures r.1 == deck[Min(|t.emptySlots|, |deck|)..]
    decreases |t.emptySlots|
  {
    if |t.emptySlots| == 0 || |deck| == 0 then (t, deck)
    else
      var slot := t.emptySlots[0];
      var placed := PlaceCard(t.(emptySlots := t.emptySlots[1..]), deck[0], slot);
      Deal(placed, deck[1..])
  }

  /** One round of the dealing loop, on a table whose emptySlots is exact. */
  function DealOne(t: Table, deck: seq<Card>): Table
    requires |t.emptySlots| > 0 && |deck| > 0
    requires t.emptySlots[0] < |t.slotToCard| && deck[0] < |t.cardToSlot|
  {
    PlaceCard(t.(emptySlots := t.emptySlots[1..]), deck[0], t.emptySlots[0])
  }

  /** One round keeps the invariants and moves the deck's head onto the table. */
  lemma DealOneSound(t: Table, deck: seq<Card>)
    requires Tables.Valid(t) && EmptyExact(t) && DeckOffTable(t, deck)
    requires |t.emptySlots| > 0 && |deck| > 0
    ensures Tables.Valid(DealOne(t, deck)) && EmptyExact(DealOne(t, deck))
    ensures DeckOffTable(DealOne(t, deck), deck[1..])
    ensures InPlay(DealOne(t, deck), deck[1..]) == InPlay(t, deck)
  {
    DealOneKeepsTable(t, deck);
    DealOneKeepsDeck(t, deck);
    assert t.emptySlots[0] in t.emptySlots;
    DealOneConserves(t, deck);
  }

  lemma DealOneKeepsTable(t: Table, deck: seq<Card>)
    requires Tables.Valid(t) && EmptyExact(t) && DeckOffTable(t, deck)
    requires |t.emptySlots| > 0 && |deck| > 0
    ensures Tables.Valid(DealOne(t, deck)) && EmptyExact(DealOne(t, deck))
  {
    var slot := t.emptySlots[0];
    var popped := t.(emptySlots := t.emptySlots[1..]);
    assert slot in t.emptySlots;
    assert Tables.Valid(popped);
    PlaceCardKeepsValid(popped, deck[0], slot);
    var placed := DealOne(t, deck);
    assert slot !in placed.emptySlots;
    forall s | 0 <= s < |placed.slotToCard|
      ensures s in placed.emptySlots <==> placed.slotToCard[s].None?
    {
      if s != slot {
        assert s in placed.emptySlots <==> s in t.emptySlots;
      }
    }
  }

  lemma DealOneKeepsDeck(t: Table, deck: seq<Card>)
    requires Tables.Valid(t) && EmptyExact(t) && DeckOffTable(t, deck)
    requires |t.emptySlots| > 0 && |deck| > 0
    ensures DeckOffTable(DealOne(t, deck), deck[1..])
  {
    var placed := DealOne(t, deck);
    var rest := deck[1..];
    forall i | 0 <= i < |rest|
      ensures rest[i] < |placed.cardToSlot| && placed.cardToSlot[rest[i]] == None
    {
      assert rest[i] == deck[i + 1] && deck[i + 1] != deck[0];
    }
  }

  lemma DealOneConserves(t: Table, deck: seq<Card>)
    requires |t.emptySlots| > 0 && |deck| > 0
    requires t.emptySlots[0] < |t.slotToCard| && deck[0] < |t.cardToSlot|
    requires t.slotToCard[t.emptySlots[0]] == None
    ensures InPlay(DealOne(t, deck), deck[1..]) == InPlay(t, deck)
  {
    var slot := t.emptySlots[0];
    var card := deck[0];
    var placed := DealOne(t, deck);
    assert placed.slotToCard == t.slotToCard[slot := Some(card)];
    CardsOfUpdate(t.slotToCard, slot, Some(card));
    assert CardsOf(placed.slotToCard) == CardsOf(t.slotToCard) + multiset{card};
    assert deck == [card] + deck[1..];
    assert multiset(deck) == multiset{card} + multiset(deck[1..]);
  }

  /**
   * Dealing keeps the table's invariants, keeps the remaining deck off the
   * table, puts the i-th dealt card in the i-th empty slot, leaves every other
   * slot alone, and loses or invents no card.
   */
  lemma {:induction false} DealSound(t: Table, deck: seq<Card>)
    requires Tables.Valid(t) && EmptyExact(t) && DeckOffTable(t, deck)
    ensures var r := Deal(t, deck);
      && Tables.Valid(r.0) && EmptyExact(r.0) && DeckOffTable(r.0, r.1)
      && InPlay(r.0, r.1) == InPlay(t, deck)
      && (forall i :: 0 <= i < Min(|t.emptySlots|, |deck|) ==> r.0.slotToCard[t.emptySlots[i]] == Some(deck[i]))
      && (forall s :: 0 <= s < |t.slotToCard| && s !in t.emptySlots ==> r.0.slotToCard[s] == t.slotToCard[s])
    decreases |t.emptySlots|
  {
    if |t.emptySlots| > 0 && |deck| > 0 {
      DealOneSound(t, deck);
      var placed := DealOne(t, deck);
      DealSound(placed, deck[1..]);
      var r := Deal(placed, deck[1..]);
      assert r == Deal(t, deck);
      forall i | 0 <= i < Min(|t.emptySlots|, |deck|)
        ensures r.0.slotToCard[t.emptySlots[i]] == Some(deck[i])
      {
        if i > 0 {
          assert t.emptySlots[i] == placed.emptySlots[i - 1];
          assert deck[i] == deck[1..][i - 1];
        } else {
          assert t.emptySlots[0] !in placed.emptySlots;
        }
      }
      forall s | 0 <= s < |t.slotToCard| && s !in t.emptySlots
        ensures r.0.slotToCard[s] == t.slotToCard[s]
      {
        assert s !in placed.emptySlots;
      }
    }
  }

  /** placeCardsOnTable's last loop: every player forgets the slots left empty. */
  function StrikeEmpty(players: seq<Players.Player>, empties: seq<Slot>): (r: seq<Players.Player>)
    ensures |r| == |players|
    ensures forall j :: 0 <= j < |r| ==> r[j] == players[j].(slotsToPlace := r[j].slotsToPlace)
    ensures PlayersWellFormed(players) ==> PlayersWellFormed(r)
    ensures PlayersWellFormed(players) ==>
      forall j, s :: 0 <= j < |r| && s in empties ==> s !in r[j].slotsToPlace
    ensures PlayersWellFormed(players) ==>
      forall j, s :: 0 <= j < |r| ==>
        (s in r[j].slotsToPlace <==> s in players[j].slotsToPlace && s !in empties)
  {
    seq(|players|, j requires 0 <= j < |players| =>
      players[j].(slotsToPlace := RemoveEach(players[j].slotsToPlace, empties)))
  }

  /**
   * placeCardsOnTable: deals min(|emptySlots|, |deck|) cards from the head of
   * the deck into the empty slots, records whether any slot stayed empty, and
   * opens the gate. Dealing stops only when the slots or the deck run out, and
   * no card is lost or invented.
   */
  function PlaceCardsOnTable(d: Dealer): (r: Dealer)
    requires Valid(d)
    ensures Valid(r)
    ensures CanPlay(r.table)
    ensures InPlay(r.table, r.deck) == InPlay(d.table, d.deck)
    ensures |r.table.emptySlots| == 0 || |r.deck| == 0
    ensures r.tableHaveEmptySlots <==> |r.table.emptySlots| > 0
    ensures QueueSound(d) ==> QueueSound(r)
  {
    PlaceCardsSound(d);
    RefillKeepsQueue(d);
    Refill(d)
  }

  /** Dealing touches neither the queue nor any player's state. */
  lemma RefillKeepsQueue(d: Dealer)
    requires Valid(d)
    ensures QueueSound(d) ==> QueueSound(Refill(d))
  {
    var r := Refill(d);
    assert r.queue == d.queue && |r.players| == |d.players|;
    assert forall j :: 0 <= j < |r.players| ==> r.players[j].state == d.players[j].state;
  }

  /** The state placeCardsOnTable leaves behind. */
  function Refill(d: Dealer): Dealer
    requires Valid(d)
  {
    var dealt := Deal(d.table, d.deck);
    var have := |dealt.0.emptySlots| != 0;
    var players := if have then StrikeEmpty(d.players, dealt.0.emptySlots) else d.players;
    d.(table := GameOn(dealt.0), deck := dealt.1, tableHaveEmptySlots := have, players := players)
  }

  lemma PlaceCardsSound(d: Dealer)
    requires Valid(d)
    ensures var r := Refill(d);
      && Valid(r) && CanPlay(r.table)
      && InPlay(r.table, r.deck) == InPlay(d.table, d.deck)
      && (|r.table.emptySlots| == 0 || |r.deck| == 0)
      && (r.tableHaveEmptySlots <==> |r.table.emptySlots| > 0)
  {
    var dealt := Deal(d.table, d.deck);
    var have := |dealt.0.emptySlots| != 0;
    var players := if have then StrikeEmpty(d.players, dealt.0.emptySlots) else d.players;
    var t := GameOn(dealt.0);
    assert Tables.Valid(dealt.0) && EmptyExact(dealt.0) && DeckOffTable(dealt.0, dealt.1)
      && InPlay(dealt.0, dealt.1) == InPlay(d.table, d.deck) by {
      DealSound(d.table, d.deck);
    }
    assert t == dealt.0.(canPlay := true);
    assert InPlay(t, dealt.1) == InPlay(dealt.0, dealt.1) by {
      assert t.slotToCard == dealt.0.slotToCard;
    }
    assert PlayersWellFormed(players) && |players| == |d.players|
      && forall j :: 0 <= j < |players| ==> players[j].mySet == d.players[j].mySet;
    ReplaceKeepsValid(d, t, dealt.1, players, have);
    assert Refill(d) == d.(table := t, deck := dealt.1, tableHaveEmptySlots := have, players := players);
  }

  /**
   * What placeCardsOnTable leaves alone: the cards already on the table, the
   * undealt tail of the deck, the queue, the clock, and everything about a
   * player except the slots it may still place on.
   */
  lemma PlaceCardsKeeps(d: Dealer)
    requires Valid(d)
    ensures var r := PlaceCardsOnTable(d);
      && |r.table.slotToCard| == |d.table.slotToCard| && |r.table.cardToSlot| == |d.table.cardToSlot|
      && (forall s :: 0 <= s < |d.table.slotToCard| && d.table.slotToCard[s].Some? ==>
            r.table.slotToCard[s] == d.table.slotToCard[s])
      && r.deck == d.deck[Min(|d.table.emptySlots|, |d.deck|)..]
      && r.queue == d.queue && r.startTime == d.startTime && r.currTime == d.currTime
      && |r.players| == |d.players|
      && (forall j :: 0 <= j < |r.players| ==>
            r.players[j] == d.players[j].(slotsToPlace := r.players[j].slotsToPlace))
  {
    var dealt := Deal(d.table, d.deck);
    var r := PlaceCardsOnTable(d);
    assert r == Refill(d);
    assert r.table.slotToCard == dealt.0.slotToCard && r.deck == dealt.1;
    assert forall s :: 0 <= s < |d.table.slotToCard| && d.table.slotToCard[s].Some? ==>
      dealt.0.slotToCard[s] == d.table.slotToCard[s] by {
      DealSound(d.table, d.deck);
      assert forall s :: 0 <= s < |d.table.slotToCard| && d.table.slotToCard[s].Some? ==> s !in d.table.emptySlots;
    }
  }

  /**
   * After dealing, a slot that stayed empty is in no player's slotsToPlace.
   */
  lemma PlaceCardsStrikesEmpty(d: Dealer)
    requires Valid(d)
    ensures var r := PlaceCardsOnTable(d);
      forall j, s :: 0 <= j < |r.players| && s in r.table.emptySlots ==> s !in r.players[j].slotsToPlace
  {
  }

  /** Swapping in a sound table, deck and players of the same shape keeps the dealer valid. */
  lemma ReplaceKeepsValid(d: Dealer, t: Table, deck: seq<Card>, players: seq<Players.Player>, have: bool)
    requires Valid(d)
    requires Tables.Valid(t) && EmptyExact(t) && DeckOffTable(t, deck)
    requires |t.slotToCard| == |d.table.slotToCard|
    requires PlayersWellFormed(players) && |players| == |d.players|
    requires forall j :: 0 <= j < |players| ==> players[j].mySet == d.players[j].mySet
    ensures Valid(d.(table := t, deck := deck, tableHaveEmptySlots := have, players := players))
  {
    var r := d.(table := t, deck := deck, tableHaveEmptySlots := have, players := players);
    forall j, i | 0 <= j < |players| && 0 <= i < |players[j].mySet|
      ensures players[j].mySet[i] < |t.slotToCard|
    {
      assert players[j].mySet == d.players[j].mySet;
    }
  }

  /** removeCardsFromTable: removeCard on each listed slot, in order. */
  function RemoveCardsFromTable(t: Table, toRemove: seq<Slot>): (r: Table)
    requires Tables.Valid(t)
    requires forall i :: 0 <= i < |toRemove| ==> toRemove[i] < |t.slotToCard|
    ensures Tables.Valid(r)
    ensures |r.slotToCard| == |t.slotToCard| && |r.cardToSlot| == |t.cardToSlot| && r.canPlay == t.canPlay
    ensures EmptyExact(t) ==> EmptyExact(r)
    ensures forall i :: 0 <= i < |toRemove| ==> r.slotToCard[toRemove[i]] == None
    ensures forall s :: 0 <= s < |t.slotToCard| && s !in toRemove ==> r.slotToCard[s] == t.slotToCard[s]
    ensures forall c :: 0 <= c < |t.cardToSlot| && t.cardToSlot[c] == None ==> r.cardToSlot[c] == None
    ensures r.slotToCard == Cleared(t.slotToCard, toRemove)
    decreases |toRemove|
  {
    if |toRemove| == 0 then t
    else RemoveCardsFromTable(RemoveCard(t, toRemove[0]), toRemove[1..])
  }

  /** Removing a duplicate-free list of slots takes exactly the cards in them off the table. */
  lemma RemoveCardsConserves(t: Table, toRemove: seq<Slot>)
    requires Tables.Valid(t) && Distinct(toRemove)
    requires forall i :: 0 <= i < |toRemove| ==> toRemove[i] < |t.slotToCard|
    ensures CardsOf(RemoveCardsFromTable(t, toRemove).slotToCard) + CardsAt(t.slotToCard, toRemove) == CardsOf(t.slotToCard)
  {
    ClearedConserves(t.slotToCard, toRemove);
  }

  /**
   * removeAllCardsFromTable's loop: visits the slots in the given order and
   * moves each card it finds to the back of the deck.
   */
  function ReturnCards(t: Table, deck: seq<Card>, order: seq<Slot>): (r: (Table, seq<Card>))
    requires Tables.Valid(t)
    requires forall i :: 0 <= i < |order| ==> order[i] < |t.slotToCard|
    ensures Tables.Valid(r.0)
    ensures |r.0.slotToCard| == |t.slotToCard| && |r.0.cardToSlot| == |t.cardToSlot| && r.0.canPlay == t.canPlay
    ensures EmptyExact(t) ==> EmptyExact(r.0)
    ensures |r.1| >= |deck| && r.1[..|deck|] == deck
    ensures forall i :: 0 <= i < |order| ==> r.0.slotToCard[order[i]] == None
    ensures forall s :: 0 <= s < |t.slotToCard| && t.slotToCard[s] == None ==> r.0.slotToCard[s] == None
    decreases |order|
  {
    if |order| == 0 then (t, deck)
    else
      var slot := order[0];
      if t.slotToCard[slot].Some? then
        var r := ReturnCards(RemoveCard(t, slot), deck + [t.slotToCard[slot].value], order[1..]);
        assert (deck + [t.slotToCard[slot].value])[..|deck|] == deck;
        r
      else ReturnCards(t, deck, order[1..])
  }

  /** Returning cards keeps the deck off the table and every card in play. */
  lemma {:induction false} ReturnCardsSound(t: Table, deck: seq<Card>, order: seq<Slot>)
    requires Tables.Valid(t) && DeckOffTable(t, deck)
    requires forall i :: 0 <= i < |order| ==> order[i] < |t.slotToCard|
    ensures DeckOffTable(ReturnCards(t, deck, order).0, ReturnCards(t, deck, order).1)
    ensures InPlay(ReturnCards(t, deck, order).0, ReturnCards(t, deck, order).1) == InPlay(t, deck)
    decreases |order|
  {
    if |order| > 0 {
      var slot := order[0];
      if t.slotToCard[slot].Some? {
        ReturnOneSound(t, deck, slot);
        var card := t.slotToCard[slot].value;
        ReturnCardsSound(RemoveCard(t, slot), deck + [card], order[1..]);
      } else {
        ReturnCardsSound(t, deck, order[1..]);
      }
    }
  }

  /** Moving one card from the table to the back of the deck. */
  lemma ReturnOneSound(t: Table, deck: seq<Card>, slot: Slot)
    requires Tables.Valid(t) && DeckOffTable(t, deck)
    requires slot < |t.slotToCard| && t.slotToCard[slot].Some?
    ensures DeckOffTable(RemoveCard(t, slot), deck + [t.slotToCard[slot].value])
    ensures InPlay(RemoveCard(t, slot), deck + [t.slotToCard[slot].value]) == InPlay(t, deck)
  {
    ReturnOneKeepsDeck(t, deck, slot);
    var card := t.slotToCard[slot].value;
    RemoveCardTakesItsCard(t, slot);
    assert Held(t.slotToCard[slot]) == multiset{card};
    assert multiset(deck + [card]) == multiset(deck) + multiset{card};
  }

  lemma ReturnOneKeepsDeck(t: Table, deck: seq<Card>, slot: Slot)
    requires Tables.Valid(t) && DeckOffTable(t, deck)
    requires slot < |t.slotToCard| && t.slotToCard[slot].Some?
    ensures DeckOffTable(RemoveCard(t, slot), deck + [t.slotToCard[slot].value])
  {
    var card := t.slotToCard[slot].value;
    var t1 := RemoveCard(t, slot);
    var deck1 := deck + [card];
    assert t.cardToSlot[card] == Some(slot);
    forall i | 0 <= i < |deck|
      ensures deck[i] != card && t1.cardToSlot[deck[i]] == None
    {
    }
    forall i | 0 <= i < |deck1|
      ensures deck1[i] < |t1.cardToSlot| && t1.cardToSlot[deck1[i]] == None
    {
      if i < |deck| {
        assert deck1[i] == deck[i];
      }
    }
    assert Distinct(deck1);
  }

  /**
   * resetGame: every player is back to Playing with no verdict pending and no
   * tokens, and the claim queue is emptied.
   */
  function ResetGame(d: Dealer): (r: Dealer)
    ensures r.queue == []
    ensures |r.players| == |d.players|
    ensures forall j :: 0 <= j < |r.players| ==>
      && r.players[j].state == Playing && r.players[j].setState == NotComplete
      && r.players[j].mySet == []
      && r.players[j].id == d.players[j].id && r.players[j].score == d.players[j].score
      && r.players[j].slotsToPlace == d.players[j].slotsToPlace && r.players[j].actions == d.players[j].actions
    ensures r == d.(players := r.players, queue := [])
    ensures Valid(d) ==> Valid(r)
  {
    var reset := seq(|d.players|, j requires 0 <= j < |d.players| =>
      Players.ClearPlayerSet(d.players[j].(state := Playing, setState := NotComplete)));
    d.(players := reset, queue := [])
  }

  /** The slots in `order` are exactly the table's slots (a shuffle of them). */
  predicate CoversGrid(order: seq<Slot>, tableSize: nat)
  {
    && (forall i :: 0 <= i < |order| ==> order[i] < tableSize)
    && (forall s: nat :: s < tableSize ==> s in order)
  }

  /**
   * removeAllCardsFromTable: closes the gate, moves every card on the table to
   * the back of the deck in the order the slots are visited, and resets the
   * game. Afterwards every slot is empty and listed, and the deck has grown by
   * exactly the cards that were on the table.
   */
  function RemoveAllCardsFromTable(d: Dealer, order: seq<Slot>): (r: Dealer)
    requires Valid(d)
    requires CoversGrid(order, |d.table.slotToCard|)
    ensures Valid(r)
    ensures !CanPlay(r.table)
    ensures forall s :: 0 <= s < |r.table.slotToCard| ==> r.table.slotToCard[s] == None
    ensures forall s: nat :: s < |r.table.slotToCard| ==> s in r.table.emptySlots
    ensures InPlay(r.table, r.deck) == InPlay(d.table, d.deck)
    ensures |r.deck| == |d.deck| + CountCards(d.table)
    ensures r.deck[..|d.deck|] == d.deck
    ensures r.queue == []
    ensures |r.players| == |d.players|
    ensures forall j :: 0 <= j < |r.players| ==>
      r.players[j].state == Playing && r.players[j].setState == NotComplete && r.players[j].mySet == []
    ensures forall j :: 0 <= j < |r.players| ==>
      && r.players[j].id == d.players[j].id && r.players[j].score == d.players[j].score
      && r.players[j].actions == d.players[j].actions && r.players[j].slotsToPlace == d.players[j].slotsToPlace
    ensures QueueSound(r)
  {
    CollectSound(d, order);
    CollectEmpties(d, order);
    CollectCounts(d, order);
    ResetGame(Collect(d, order))
  }

  /** The gate closed and every card moved from the table to the deck. */
  function Collect(d: Dealer, order: seq<Slot>): Dealer
    requires Valid(d)
    requires CoversGrid(order, |d.table.slotToCard|)
  {
    var returned := ReturnCards(GameOff(d.table), d.deck, order);
    d.(table := returned.0, deck := returned.1)
  }

  lemma CollectSound(d: Dealer, order: seq<Slot>)
    requires Valid(d)
    requires CoversGrid(order, |d.table.slotToCard|)
    ensures var r := Collect(d, order);
      && Valid(r) && !CanPlay(r.table)
      && InPlay(r.table, r.deck) == InPlay(d.table, d.deck)
      && |r.table.slotToCard| == |d.table.slotToCard|
      && |r.deck| >= |d.deck| && r.deck[..|d.deck|] == d.deck
  {
    ReturnCardsSound(GameOff(d.table), d.deck, order);
    var r := Collect(d, order);
    assert TokensOnGrid(r.table, r.players);
  }

  lemma CollectEmpties(d: Dealer, order: seq<Slot>)
    requires Valid(d)
    requires CoversGrid(order, |d.table.slotToCard|)
    ensures var r := Collect(d, order);
      forall s :: 0 <= s < |r.table.slotToCard| ==> r.table.slotToCard[s] == None
  {
    var r := Collect(d, order);
    forall s | 0 <= s < |r.table.slotToCard|
      ensures r.table.slotToCard[s] == None
    {
      assert s in order;
      var i :| 0 <= i < |order| && order[i] == s;
    }
  }

  lemma CollectCounts(d: Dealer, order: seq<Slot>)
    requires Valid(d)
    requires CoversGrid(order, |d.table.slotToCard|)
    ensures |Collect(d, order).deck| == |d.deck| + CountCards(d.table)
  {
    var r := Collect(d, order);
    CollectSound(d, order);
    CollectEmpties(d, order);
    AllEmptyHoldsNothing(r.table.slotToCard);
    CardsOfSize(d.table.slotToCard);
    OccupiedCounts(d.table.slotToCard);
    assert |InPlay(r.table, r.deck)| == |r.deck|;
    assert |InPlay(d.table, d.deck)| == CountCards(d.table) + |d.deck|;
  }

  /**
   * addPlayerToQueue: offers the id to the bounded queue (capacity: one slot
   * per player); when there is room the id lands at the tail.
   */
  function AddPlayerToQueue(d: Dealer, id: nat): (r: Dealer)
    ensures r == d.(queue := r.queue)
    ensures |d.queue| < |d.players| ==>
      |r.queue| == |d.queue| + 1 && r.queue[|d.queue|] == id && r.queue[..|d.queue|] == d.queue
    ensures |d.queue| >= |d.players| ==> r.queue == d.queue
    ensures Valid(d) && id < |d.players| ==> Valid(r)
  {
    if |d.queue| < |d.players| then d.(queue := d.queue + [id]) else d
  }

  /**
   * getSetOfCards: a three-card array holding, at index i, the card in the
   * i-th selected slot; an empty slot, or a missing one, leaves the array's
   * default 0. Each card read back maps to the slot it was read from.
   */
  function GetSetOfCards(t: Table, sel: seq<Slot>): (r: seq<Card>)
    requires |sel| <= SetSize
    requires forall i :: 0 <= i < |sel| ==> sel[i] < |t.slotToCard|
    ensures |r| == SetSize
    ensures Tables.Valid(t) ==> forall i :: 0 <= i < |sel| && t.slotToCard[sel[i]].Some? ==>
      r[i] < |t.cardToSlot| && t.cardToSlot[r[i]] == Some(sel[i])
    ensures forall i :: 0 <= i < SetSize && (i >= |sel| || t.slotToCard[sel[i]].None?) ==> r[i] == 0
  {
    seq(SetSize, i requires 0 <= i < SetSize =>
      if i < |sel| && t.slotToCard[sel[i]].Some? then t.slotToCard[sel[i]].value else 0)
  }

  /**
   * Because of the 0 default, a selected empty slot reads exactly like the
   * slot holding card 0: the validity test cannot tell the two apart.
   */
  lemma EmptySlotReadsAsCardZero(t: Table, sel: seq<Slot>, i: nat, zeroSlot: Slot)
    requires |sel| <= SetSize && i < |sel|
    requires forall k :: 0 <= k < |sel| ==> sel[k] < |t.slotToCard|
    requires zeroSlot < |t.slotToCard| && t.slotToCard[zeroSlot] == Some(0)
    requires t.slotToCard[sel[i]] == None
    ensures GetSetOfCards(t, sel[i := zeroSlot]) == GetSetOfCards(t, sel)
  {
    var a := GetSetOfCards(t, sel[i := zeroSlot]);
    var b := GetSetOfCards(t, sel);
    assert a[i] == 0 && b[i] == 0;
    assert forall k :: 0 <= k < SetSize ==> a[k] == b[k];
  }

  /** Every player lifts its tokens from the listed slots (checkSet's removeTokensFromSlots loop). */
  function LiftTokens(players: seq<Players.Player>, sel: seq<Slot>): (r: seq<Players.Player>)
    ensures |r| == |players|
    ensures forall j :: 0 <= j < |r| ==> Players.SameStatus(players[j], r[j])
    ensures forall j, x :: 0 <= j < |r| && x !in sel ==> (x in r[j].mySet <==> x in players[j].mySet)
    ensures forall j, x :: 0 <= j < |r| && x in r[j].mySet ==> x in players[j].mySet
    ensures PlayersWellFormed(players) ==> PlayersWellFormed(r)
    ensures PlayersWellFormed(players) ==> forall j, s :: 0 <= j < |r| && s in sel ==> s !in r[j].mySet
    ensures forall j :: 0 <= j < |r| && players[j].mySet == sel ==> r[j].mySet == []
  {
    forall j | 0 <= j < |players| && players[j].mySet == sel {
      Players.RemoveOwnTokens(players[j]);
    }
    seq(|players|, j requires 0 <= j < |players| => Players.RemoveTokensFromSlots(players[j], sel))
  }

  /** A legal set's first half: gate closed, its tokens lifted, its cards taken away. */
  function Lift(d: Dealer, sel: seq<Slot>): Dealer
    requires Valid(d)
    requires forall i :: 0 <= i < |sel| ==> sel[i] < |d.table.slotToCard|
  {
    d.(table := RemoveCardsFromTable(GameOff(d.table), sel), players := LiftTokens(d.players, sel))
  }

  lemma LiftSound(d: Dealer, sel: seq<Slot>)
    requires Valid(d) && Distinct(sel)
    requires forall i :: 0 <= i < |sel| ==> sel[i] < |d.table.slotToCard|
    ensures var r := Lift(d, sel);
      && Valid(r)
      && InPlay(r.table, r.deck) + CardsAt(d.table.slotToCard, sel) == InPlay(d.table, d.deck)
      && (forall j, s :: 0 <= j < |r.players| && s in sel ==> s !in r.players[j].mySet)
  {
    LiftKeepsValid(d, sel);
    var r := Lift(d, sel);
    var closed := GameOff(d.table);
    var kept := CardsOf(r.table.slotToCard);
    var taken := CardsAt(d.table.slotToCard, sel);
    assert kept + taken == CardsOf(d.table.slotToCard) by {
      assert closed.slotToCard == d.table.slotToCard;
      RemoveCardsConserves(closed, sel);
    }
    assert r.deck == d.deck;
    forall c ensures (InPlay(r.table, r.deck) + taken)[c] == InPlay(d.table, d.deck)[c] {
      assert (kept + taken)[c] == CardsOf(d.table.slotToCard)[c];
    }
  }

  lemma LiftKeepsValid(d: Dealer, sel: seq<Slot>)
    requires Valid(d)
    requires forall i :: 0 <= i < |sel| ==> sel[i] < |d.table.slotToCard|
    ensures Valid(Lift(d, sel))
  {
    var closed := GameOff(d.table);
    var r := Lift(d, sel);
    assert Tables.Valid(r.table) && EmptyExact(r.table);
    forall i | 0 <= i < |r.deck|
      ensures r.deck[i] < |r.table.cardToSlot| && r.table.cardToSlot[r.deck[i]] == None
    {
      assert closed.cardToSlot[d.deck[i]] == None;
    }
    assert PlayersWellFormed(r.players);
    forall j, i | 0 <= j < |r.players| && 0 <= i < |r.players[j].mySet|
      ensures r.players[j].mySet[i] < |r.table.slotToCard|
    {
      var s := r.players[j].mySet[i];
      assert s in d.players[j].mySet;
      var k :| 0 <= k < |d.players[j].mySet| && d.players[j].mySet[k] == s;
    }
  }

  /**
   * The legal-set path of checkSet: every token on the set is lifted, the set's
   * cards leave the game, the gaps are refilled from the deck, the gate reopens
   * and the clock is reset to start_time + 999.
   */
  function AcceptSet(d: Dealer, sel: seq<Slot>): (r: Dealer)
    requires Valid(d) && Distinct(sel)
    requires forall i :: 0 <= i < |sel| ==> sel[i] < |d.table.slotToCard|
    ensures Valid(r)
    ensures CanPlay(r.table)
    ensures |r.table.emptySlots| == 0 || |r.deck| == 0
    ensures InPlay(r.table, r.deck) + CardsAt(d.table.slotToCard, sel) == InPlay(d.table, d.deck)
    ensures r.currTime == d.startTime + ResetBonus
  {
    LiftSound(d, sel);
    Refilled(d, sel)
  }

  /** The state after a legal set, before the clock is reset. */
  function Refilled(d: Dealer, sel: seq<Slot>): Dealer
    requires Valid(d)
    requires forall i :: 0 <= i < |sel| ==> sel[i] < |d.table.slotToCard|
  {
    LiftKeepsValid(d, sel);
    PlaceCardsOnTable(Lift(d, sel)).(currTime := d.startTime + ResetBonus)
  }

  /**
   * What a legal set leaves alone, and that nobody keeps a token on the set's
   * slots: the claimant, whose tokens were exactly the set, has none left.
   */
  lemma AcceptSetLiftsTokens(d: Dealer, sel: seq<Slot>)
    requires Valid(d) && Distinct(sel)
    requires forall i :: 0 <= i < |sel| ==> sel[i] < |d.table.slotToCard|
    ensures var r := AcceptSet(d, sel);
      && |r.players| == |d.players|
      && (forall j, s :: 0 <= j < |r.players| && s in sel ==> s !in r.players[j].mySet)
      && (forall j :: 0 <= j < |r.players| && d.players[j].mySet == sel ==> r.players[j].mySet == [])
      && (forall j :: 0 <= j < |r.players| ==> Players.SameStatus(d.players[j], r.players[j]))
      && r.queue == d.queue && r.startTime == d.startTime
  {
    LiftSound(d, sel);
    PlaceCardsKeeps(Lift(d, sel));
  }

  /** Player._notify: the player's state becomes the one the dealer passes. */
  function Notify(d: Dealer, id: nat, state: PlayerState): (r: Dealer)
    requires id < |d.players|
    ensures |r.players| == |d.players| && r.players[id].state == state
    ensures r.players[id] == d.players[id].(state := state)
    ensures forall j :: 0 <= j < |r.players| && j != id ==> r.players[j] == d.players[j]
    ensures r == d.(players := r.players)
    ensures Valid(d) ==> Valid(r)
  {
    d.(players := d.players[id := d.players[id].(state := state)])
  }

  /** The claimant's verdict slot is set to v. */
  function Mark(d: Dealer, id: nat, v: SetState): (r: Dealer)
    requires id < |d.players|
    ensures |r.players| == |d.players| && r.players[id] == d.players[id].(setState := v)
    ensures forall j :: 0 <= j < |r.players| && j != id ==> r.players[j] == d.players[j]
    ensures r == d.(players := r.players)
    ensures Valid(d) ==> Valid(r)
  {
    d.(players := d.players[id := d.players[id].(setState := v)])
  }

  /** The claimant's token list holds exactly a set's worth of slots. */
  predicate Complete(d: Dealer, id: nat)
    requires id < |d.players|
  {
    |d.players[id].mySet| == SetSize
  }

  /** The verdict of the oracle on the cards under a full claim. */
  predicate IsLegal(d: Dealer, id: nat, valid: seq<Card> -> bool)
    requires Valid(d) && id < |d.players|
  {
    Complete(d, id) && valid(GetSetOfCards(d.table, d.players[id].mySet))
  }

  /**
   * What every verdict keeps: the invariant, the queue, the start time, every
   * score, and every other player's state and verdict slot.
   */
  predicate Judged(d: Dealer, r: Dealer, id: nat)
  {
    && Valid(r) && r.queue == d.queue && r.startTime == d.startTime
    && |r.players| == |d.players|
    && (forall j :: 0 <= j < |r.players| ==> r.players[j].score == d.players[j].score)
    && (forall j :: 0 <= j < |r.players| && j != id ==>
          r.players[j].state == d.players[j].state && r.players[j].setState == d.players[j].setState)
    && (r.currTime == d.currTime || r.currTime == d.startTime + ResetBonus)
    && InPlay(r.table, r.deck) <= InPlay(d.table, d.deck)
  }

  /** checkSet on a claim of fewer than three tokens, closing notify included. */
  function ShortVerdict(d: Dealer, id: nat, state: PlayerState): (r: Dealer)
    requires Valid(d) && id < |d.players|
    ensures Judged(d, r, id) && r.players[id].state == state
  {
    var p := d.players[id];
    Notify(d.(players := d.players[id := p.(state := Playing, setState := NotComplete)]), id, state)
  }

  /** checkSet on a full claim the oracle accepts, closing notify included. */
  function LegalVerdict(d: Dealer, id: nat): (r: Dealer)
    requires Valid(d) && id < |d.players|
    requires |d.players[id].mySet| == SetSize
    ensures Judged(d, r, id) && r.players[id].state == Playing
  {
    LegalVerdictJudged(d, id);
    LegalOutcome(d, id)
  }

  /** The state a legal claim leaves: verdict Legal, the set accepted, the claimant Playing. */
  function LegalOutcome(d: Dealer, id: nat): Dealer
    requires Valid(d) && id < |d.players|
  {
    var sel := d.players[id].mySet;
    Notify(AcceptSet(Mark(d, id, Legal), sel), id, Playing)
  }

  lemma LegalVerdictJudged(d: Dealer, id: nat)
    requires Valid(d) && id < |d.players|
    ensures Judged(d, LegalOutcome(d, id), id) && LegalOutcome(d, id).players[id].state == Playing
  {
    var sel := d.players[id].mySet;
    var marked := Mark(d, id, Legal);
    var accepted := AcceptSet(marked, sel);
    AcceptSetLiftsTokens(marked, sel);
    assert InPlay(accepted.table, accepted.deck) <= InPlay(d.table, d.deck) by {
      var taken := CardsAt(d.table.slotToCard, sel);
      assert InPlay(accepted.table, accepted.deck) + taken == InPlay(d.table, d.deck);
    }
  }

  /** checkSet on a full claim the oracle rejects, closing notify included. */
  function IllegalVerdict(d: Dealer, id: nat): (r: Dealer)
    requires Valid(d) && id < |d.players|
    ensures Judged(d, r, id) && r.players[id].state == PlayingAfterPunishment
  {
    Notify(Mark(d, id, Illegal), id, PlayingAfterPunishment)
  }

  /**
   * The player thread's run-loop step, written back into the dealer's seat
   * `id` and followed by addPlayerToQueue when it claims a set, keeps the
   * dealer invariant: the dealer's operations may run between any two player
   * steps. The same holds for the step with the three-token bound.
   */
  lemma RunStepKeepsValid(d: Dealer, id: nat)
    requires Valid(d) && id < |d.players|
    requires |d.players[id].actions| > 0 && d.players[id].actions[0] < |d.table.slotToCard|
    ensures var r := Players.RunStep(d.players[id], d.table);
      var moved := d.(players := d.players[id := r.0]);
      Valid(moved) && (r.1 ==> Valid(AddPlayerToQueue(moved, id)))
    ensures var r := Players.RunStepBounded(d.players[id], d.table);
      var moved := d.(players := d.players[id := r.0]);
      Valid(moved) && (r.1 ==> Valid(AddPlayerToQueue(moved, id)))
  {
    var p := d.players[id];
    var s := p.actions[0];
    var r := Players.RunStep(p, d.table);
    assert forall x :: x in r.0.mySet ==> x in p.mySet || x == s by {
      assert r.0.mySet == Players.HandleTokenActions(p, d.table, Some(s)).mySet;
    }
    GridTokensKept(d, id, r.0);
    var b := Players.RunStepBounded(p, d.table);
    assert forall x :: x in b.0.mySet ==> x in p.mySet || x == s;
    GridTokensKept(d, id, b.0);
  }

  /**
   * A claim always finds room in the queue: the claimant is Playing, so it is
   * not queued, and the distinct queued seats are then fewer than the players.
   * The claimant joins the tail, Waiting, and the queue stays sound; a step
   * that makes no claim keeps it sound too, a Waiting player staying Waiting.
   * The same holds for the step with the three-token bound.
   */
  lemma RunStepKeepsQueueSound(d: Dealer, id: nat)
    requires Valid(d) && QueueSound(d) && id < |d.players|
    requires |d.players[id].actions| > 0 && d.players[id].actions[0] < |d.table.slotToCard|
    ensures var r := Players.RunStep(d.players[id], d.table);
      var moved := d.(players := d.players[id := r.0]);
      && (r.1 ==> |moved.queue| < |moved.players| && QueueSound(AddPlayerToQueue(moved, id)))
      && (!r.1 ==> QueueSound(moved))
    ensures var r := Players.RunStepBounded(d.players[id], d.table);
      var moved := d.(players := d.players[id := r.0]);
      && (r.1 ==> |moved.queue| < |moved.players| && QueueSound(AddPlayerToQueue(moved, id)))
      && (!r.1 ==> QueueSound(moved))
  {
    var p := d.players[id];
    if p.state == Playing {
      assert id !in d.queue;
      DistinctBelowMissing(d.queue, |d.players|, id);
    }
    SeatStepKeepsQueueSound(d, id, Players.RunStep(p, d.table));
    SeatStepKeepsQueueSound(d, id, Players.RunStepBounded(p, d.table));
  }

  /**
   * Seat `id` takes the result of a step that keeps a Waiting player Waiting
   * and claims only out of Playing; with room, the claim keeps the queue sound.
   */
  lemma SeatStepKeepsQueueSound(d: Dealer, id: nat, r: (Players.Player, bool))
    requires QueueSound(d) && id < |d.players|
    requires d.players[id].state == Waiting ==> r.0.state == Waiting
    requires r.1 ==> d.players[id].state == Playing && r.0.state == Waiting && |d.queue| < |d.players|
    ensures var moved := d.(players := d.players[id := r.0]);
      && (r.1 ==> QueueSound(AddPlayerToQueue(moved, id)))
      && (!r.1 ==> QueueSound(moved))
  {
    var moved := d.(players := d.players[id := r.0]);
    if r.1 {
      assert id !in d.queue;
      var grown := AddPlayerToQueue(moved, id);
      assert grown.queue == d.queue + [id];
      forall i | 0 <= i < |grown.queue| ensures grown.queue[i] < |grown.players| && grown.players[grown.queue[i]].state == Waiting {
        if i < |d.queue| {
          assert grown.queue[i] == d.queue[i];
        }
      }
    }
  }

  /** Seat `id` takes a well-formed player whose tokens lie on the grid. */
  lemma GridTokensKept(d: Dealer, id: nat, q: Players.Player)
    requires Valid(d) && id < |d.players|
    requires q.id == id && Players.Valid(q)
    requires forall x :: x in q.mySet ==> x < |d.table.slotToCard|
    ensures Valid(d.(players := d.players[id := q]))
  {
    var ps := d.players[id := q];
    forall j, i | 0 <= j < |ps| && 0 <= i < |ps[j].mySet| ensures ps[j].mySet[i] < |d.table.slotToCard| {
      if j == id {
        assert ps[j].mySet[i] in q.mySet;
      }
    }
  }

  /** keyPressed, applied to seat `id` with the table's gate and empty list, keeps the dealer invariant. */
  lemma KeyPressedKeepsValid(d: Dealer, id: nat, slot: Option<Slot>)
    requires Valid(d) && id < |d.players|
    ensures var q := Players.KeyPressed(d.players[id], CanPlay(d.table), d.tableHaveEmptySlots, d.table.emptySlots, slot);
      Valid(d.(players := d.players[id := q])) && (QueueSound(d) ==> QueueSound(d.(players := d.players[id := q])))
  {
    var q := Players.KeyPressed(d.players[id], CanPlay(d.table), d.tableHaveEmptySlots, d.table.emptySlots, slot);
    GridTokensKept(d, id, q);
  }

  /**
   * The claimant's reaction to its verdict, written back into seat `id`, keeps
   * the dealer invariant; once the dealer has woken it out of Waiting, it keeps
   * the queue sound as well.
   */
  lemma AfterVerdictKeepsValid(d: Dealer, id: nat)
    requires Valid(d) && id < |d.players|
    ensures Valid(d.(players := d.players[id := Players.AfterVerdict(d.players[id])]))
    ensures QueueSound(d) && d.players[id].state != Waiting ==>
      QueueSound(d.(players := d.players[id := Players.AfterVerdict(d.players[id])]))
  {
    GridTokensKept(d, id, Players.AfterVerdict(d.players[id]));
  }

  /**
   * One round of checkSet's loop for the dequeued claimant `id`. `state` is
   * the loop's running PlayerState and the second result its new value, which
   * the closing notify hands to the claimant whatever the verdict.
   */
  function CheckClaim(d: Dealer, id: nat, valid: seq<Card> -> bool, state: PlayerState): (r: (Dealer, PlayerState))
    requires Valid(d) && id < |d.players|
    ensures Judged(d, r.0, id)
    ensures r.0.players[id].state == r.1
    ensures r.1 == state || r.1 == Playing || r.1 == PlayingAfterPunishment
  {
    var p := d.players[id];
    if |p.mySet| < SetSize then (ShortVerdict(d, id, state), state)
    else if |p.mySet| == SetSize then
      if valid(GetSetOfCards(d.table, p.mySet)) then (LegalVerdict(d, id), Playing)
      else (IllegalVerdict(d, id), PlayingAfterPunishment)
    else (Notify(d, id, state), state)
  }

  /**
   * A claim with fewer than three tokens is marked NotComplete and touches
   * nothing else, but the claimant leaves with the loop's running state, not
   * with Playing.
   */
  lemma ShortClaim(d: Dealer, id: nat, valid: seq<Card> -> bool, state: PlayerState)
    requires Valid(d) && id < |d.players| && |d.players[id].mySet| < SetSize
    ensures var r := CheckClaim(d, id, valid, state);
      && r.1 == state && r.0.players[id].setState == NotComplete
      && r.0.players[id].mySet == d.players[id].mySet
      && r.0.table == d.table && r.0.deck == d.deck && r.0.currTime == d.currTime
  {
  }

  /**
   * A full claim the oracle rejects: the claimant is marked Illegal and
   * punished, keeps its tokens, and the table, deck and clock stay as they
   * were; the running state becomes PlayingAfterPunishment.
   */
  lemma IllegalClaim(d: Dealer, id: nat, valid: seq<Card> -> bool, state: PlayerState)
    requires Valid(d) && id < |d.players| && Complete(d, id) && !IsLegal(d, id, valid)
    ensures var r := CheckClaim(d, id, valid, state);
      && r.1 == PlayingAfterPunishment && r.0.players[id].setState == Illegal
      && r.0.players[id].mySet == d.players[id].mySet
      && r.0.table == d.table && r.0.deck == d.deck && r.0.currTime == d.currTime
  {
  }

  /**
   * A full claim the oracle accepts: the claimant is marked Legal and left
   * Playing with no token, exactly the set's cards leave the game, the gate
   * is open again and the clock is reset.
   */
  lemma LegalClaim(d: Dealer, id: nat, valid: seq<Card> -> bool, state: PlayerState)
    requires Valid(d) && id < |d.players| && IsLegal(d, id, valid)
    ensures var r := CheckClaim(d, id, valid, state);
      && r.1 == Playing && r.0.players[id].setState == Legal
      && r.0.players[id].mySet == []
      && (forall j, s :: 0 <= j < |r.0.players| && s in d.players[id].mySet ==> s !in r.0.players[j].mySet)
      && InPlay(r.0.table, r.0.deck) + CardsAt(d.table.slotToCard, d.players[id].mySet) == InPlay(d.table, d.deck)
      && CanPlay(r.0.table)
      && r.0.currTime == d.startTime + ResetBonus
  {
    var marked := Mark(d, id, Legal);
    AcceptSetLiftsTokens(marked, d.players[id].mySet);
  }

  /** A claim with more than three tokens is not judged at all. */
  lemma OverfullClaim(d: Dealer, id: nat, valid: seq<Card> -> bool, state: PlayerState)
    requires Valid(d) && id < |d.players| && |d.players[id].mySet| > SetSize
    ensures var r := CheckClaim(d, id, valid, state);
      && r.1 == state && r.0.players[id].setState == d.players[id].setState
      && r.0.table == d.table && r.0.deck == d.deck && r.0.currTime == d.currTime
  {
  }

  /**
   * checkSet's loop: dequeues claimants one by one, head first, judging each
   * with the running state the previous verdicts left. The queue ends empty
   * and every claimant that was queued has been woken out of Waiting; no score
   * changes (points are the players' business), cards only ever leave the
   * game, and the clock either stands or was reset. Players never queued keep
   * their state and verdict slot, though a legal set may lift their tokens.
   */
  function Drain(d: Dealer, valid: seq<Card> -> bool, state: PlayerState): (r: (Dealer, PlayerState))
    requires Valid(d) && state != Waiting
    ensures Valid(r.0) && r.0.queue == [] && r.1 != Waiting
    ensures r.0.startTime == d.startTime && |r.0.players| == |d.players|
    ensures forall i :: 0 <= i < |d.queue| ==> r.0.players[d.queue[i]].state != Waiting
    ensures forall j :: 0 <= j < |r.0.players| ==> r.0.players[j].score == d.players[j].score
    ensures r.0.currTime == d.currTime || r.0.currTime == d.startTime + ResetBonus
    ensures InPlay(r.0.table, r.0.deck) <= InPlay(d.table, d.deck)
    ensures forall j :: 0 <= j < |r.0.players| && j !in d.queue ==>
      r.0.players[j].state == d.players[j].state && r.0.players[j].setState == d.players[j].setState
  {
    DrainKeeps(d, valid, state);
    DrainSpares(d, valid, state);
    DrainReleases(d, valid, state);
    DrainLoop(d, valid, state)
  }

  /** The loop itself: judge the head claimant, then the rest of the queue. */
  function DrainLoop(d: Dealer, valid: seq<Card> -> bool, state: PlayerState): (Dealer, PlayerState)
    requires Valid(d) && state != Waiting
    decreases |d.queue|
  {
    if |d.queue| == 0 then (d, state)
    else
      var c := CheckClaim(d.(queue := d.queue[1..]), d.queue[0], valid, state);
      DrainLoop(c.0, valid, c.1)
  }

  /** What the loop keeps, claim after claim. */
  lemma {:induction false} DrainKeeps(d: Dealer, valid: seq<Card> -> bool, state: PlayerState)
    requires Valid(d) && state != Waiting
    ensures var r := DrainLoop(d, valid, state);
      && Valid(r.0) && r.0.queue == [] && r.1 != Waiting
      && r.0.startTime == d.startTime && |r.0.players| == |d.players|
      && (forall j :: 0 <= j < |r.0.players| ==> r.0.players[j].score == d.players[j].score)
      && (r.0.currTime == d.currTime || r.0.currTime == d.startTime + ResetBonus)
      && InPlay(r.0.table, r.0.deck) <= InPlay(d.table, d.deck)
    decreases |d.queue|
  {
    if |d.queue| > 0 {
      var c := CheckClaim(d.(queue := d.queue[1..]), d.queue[0], valid, state);
      DrainKeeps(c.0, valid, c.1);
    }
  }

  /** The loop keeps the number of players. */
  lemma {:induction false} DrainSeats(d: Dealer, valid: seq<Card> -> bool, state: PlayerState)
    requires Valid(d) && state != Waiting
    ensures |DrainLoop(d, valid, state).0.players| == |d.players|
    decreases |d.queue|
  {
    if |d.queue| > 0 {
      var c := CheckClaim(d.(queue := d.queue[1..]), d.queue[0], valid, state);
      DrainSeats(c.0, valid, c.1);
    }
  }

  /** A player never queued keeps its state and verdict slot. */
  lemma {:induction false} DrainSpares(d: Dealer, valid: seq<Card> -> bool, state: PlayerState)
    requires Valid(d) && state != Waiting
    ensures |DrainLoop(d, valid, state).0.players| == |d.players|
    ensures var r := DrainLoop(d, valid, state);
      forall j :: 0 <= j < |r.0.players| && j !in d.queue ==>
        r.0.players[j].state == d.players[j].state && r.0.players[j].setState == d.players[j].setState
    decreases |d.queue|
  {
    DrainSeats(d, valid, state);
    if |d.queue| > 0 {
      var c := CheckClaim(d.(queue := d.queue[1..]), d.queue[0], valid, state);
      DrainSpares(c.0, valid, c.1);
      var r := DrainLoop(c.0, valid, c.1);
      assert DrainLoop(d, valid, state) == r;
      assert c.0.queue == d.queue[1..];
      forall j | 0 <= j < |r.0.players| && j !in d.queue
        ensures r.0.players[j].state == d.players[j].state && r.0.players[j].setState == d.players[j].setState
      {
        assert j != d.queue[0];
        assert j !in c.0.queue;
      }
    }
  }

  /** Every queued claimant is woken out of Waiting. */
  lemma {:induction false} DrainReleases(d: Dealer, valid: seq<Card> -> bool, state: PlayerState)
    requires Valid(d) && state != Waiting
    ensures |DrainLoop(d, valid, state).0.players| == |d.players|
    ensures var r := DrainLoop(d, valid, state);
      forall i :: 0 <= i < |d.queue| ==> r.0.players[d.queue[i]].state != Waiting
    decreases |d.queue|, 0
  {
    DrainSeats(d, valid, state);
    if |d.queue| > 0 {
      var id := d.queue[0];
      var c := CheckClaim(d.(queue := d.queue[1..]), id, valid, state);
      var r := DrainLoop(c.0, valid, c.1);
      assert DrainLoop(d, valid, state) == r;
      assert c.0.queue == d.queue[1..];
      forall i | 0 <= i < |d.queue| ensures r.0.players[d.queue[i]].state != Waiting {
        if i > 0 {
          DrainReleases(c.0, valid, c.1);
          assert d.queue[i] == c.0.queue[i - 1];
        } else {
          HeadReleased(c.0, valid, c.1, id);
        }
      }
    }
  }

  /**
   * A claimant notified out of Waiting stays out of it through the rest of
   * the loop: either it is judged again later or the loop spares it.
   */
  lemma {:induction false} HeadReleased(d: Dealer, valid: seq<Card> -> bool, state: PlayerState, id: nat)
    requires Valid(d) && state != Waiting && id < |d.players|
    requires d.players[id].state != Waiting
    ensures |DrainLoop(d, valid, state).0.players| == |d.players|
    ensures DrainLoop(d, valid, state).0.players[id].state != Waiting
    decreases |d.queue|, 1
  {
    DrainReleases(d, valid, state);
    if id in d.queue {
      var k :| 0 <= k < |d.queue| && d.queue[k] == id;
    } else {
      DrainSpares(d, valid, state);
    }
  }

  /** placeCardsOnTable does not look at the claim queue. */
  lemma RefillIgnoresQueue(d: Dealer, q: seq<nat>)
    requires Valid(d) && Valid(d.(queue := q))
    ensures Refill(d.(queue := q)) == Refill(d).(queue := q)
  {
  }

  /** Nor does the first half of accepting a set. */
  lemma LiftIgnoresQueue(d: Dealer, q: seq<nat>, sel: seq<Slot>)
    requires Valid(d) && Valid(d.(queue := q))
    requires forall i :: 0 <= i < |sel| ==> sel[i] < |d.table.slotToCard|
    ensures Lift(d.(queue := q), sel) == Lift(d, sel).(queue := q)
  {
  }

  /** Accepting a set gives the same dealer whatever is queued, queue apart. */
  lemma AcceptSetIgnoresQueue(d: Dealer, q: seq<nat>, sel: seq<Slot>)
    requires Valid(d) && Valid(d.(queue := q)) && Distinct(sel)
    requires forall i :: 0 <= i < |sel| ==> sel[i] < |d.table.slotToCard|
    ensures AcceptSet(d.(queue := q), sel) == AcceptSet(d, sel).(queue := q)
  {
    LiftIgnoresQueue(d, q, sel);
    LiftKeepsValid(d, sel);
    LiftKeepsValid(d.(queue := q), sel);
    RefillIgnoresQueue(Lift(d, sel), q);
  }

  /**
   * A verdict does not look at who else is queued: judging a claimant with
   * one queue behind it or another gives the same dealer apart from the queue.
   */
  lemma CheckClaimIgnoresQueue(d: Dealer, q: seq<nat>, id: nat, valid: seq<Card> -> bool, state: PlayerState)
    requires Valid(d) && Valid(d.(queue := q)) && id < |d.players|
    ensures CheckClaim(d.(queue := q), id, valid, state).0 == CheckClaim(d, id, valid, state).0.(queue := q)
    ensures CheckClaim(d.(queue := q), id, valid, state).1 == CheckClaim(d, id, valid, state).1
  {
    var p := d.players[id];
    if |p.mySet| == SetSize && valid(GetSetOfCards(d.table, p.mySet)) {
      var m := Mark(d, id, Legal);
      assert Mark(d.(queue := q), id, Legal) == m.(queue := q);
      AcceptSetIgnoresQueue(m, q, p.mySet);
    }
  }

  /**
   * Claims are judged first in, first out: draining q1 + q2 is draining q1,
   * then draining q2 from where q1 left the table, the players and the
   * running state.
   */
  lemma {:induction false} DrainInOrder(d: Dealer, q1: seq<nat>, q2: seq<nat>, valid: seq<Card> -> bool, state: PlayerState)
    requires Valid(d.(queue := q1)) && state != Waiting
    requires forall i :: 0 <= i < |q2| ==> q2[i] < |d.players|
    ensures var first := Drain(d.(queue := q1), valid, state);
      Drain(d.(queue := q1 + q2), valid, state) == Drain(first.0.(queue := q2), valid, first.1)
    decreases |q1|
  {
    var n := |d.players|;
    assert forall i :: 0 <= i < |q1 + q2| ==> (q1 + q2)[i] < n by {
      forall i | 0 <= i < |q1 + q2| ensures (q1 + q2)[i] < n {
        if i < |q1| { assert (q1 + q2)[i] == q1[i]; } else { assert (q1 + q2)[i] == q2[i - |q1|]; }
      }
    }
    var whole := d.(queue := q1 + q2);
    if |q1| == 0 {
      assert whole == d.(queue := q1).(queue := q2);
    } else {
      var id := q1[0];
      var rest := q1[1..];
      assert whole.queue[0] == id && whole.queue[1..] == rest + q2;
      var base := d.(queue := rest);
      assert Valid(base) by {
        assert forall i :: 0 <= i < |rest| ==> rest[i] == q1[i + 1];
      }
      assert whole.(queue := rest + q2) == base.(queue := rest + q2);
      CheckClaimIgnoresQueue(base, rest + q2, id, valid, state);
      var c := CheckClaim(base, id, valid, state);
      assert Drain(whole, valid, state) == Drain(c.0.(queue := rest + q2), valid, c.1);
      assert d.(queue := q1).(queue := rest) == base;
      assert Drain(d.(queue := q1), valid, state) == Drain(c.0, valid, c.1);
      assert c.0.(queue := rest) == c.0;
      DrainInOrder(c.0, rest, q2, valid, c.1);
    }
  }

  /**
   * checkSet: the loop above, starting from Playing; every claimant it
   * dequeues is woken with a verdict.
   */
  function CheckSet(d: Dealer, valid: seq<Card> -> bool): (r: Dealer)
    requires Valid(d)
    ensures Valid(r) && r.queue == []
    ensures r.startTime == d.startTime && |r.players| == |d.players|
    ensures forall i :: 0 <= i < |d.queue| ==> r.players[d.queue[i]].state != Waiting
    ensures forall j :: 0 <= j < |r.players| ==> r.players[j].score == d.players[j].score
    ensures forall j :: 0 <= j < |r.players| && j !in d.queue ==> r.players[j].state == d.players[j].state
    ensures InPlay(r.table, r.deck) <= InPlay(d.table, d.deck)
    ensures r.currTime == d.currTime || r.currTime == d.startTime + ResetBonus
    ensures QueueSound(r)
  {
    Drain(d, valid, Playing).0
  }

  /**
   * checkSet's running state outlives the claim that set it: when an illegal
   * claim is followed in the same round by a claim of fewer than three tokens,
   * the second claimant is woken as PlayingAfterPunishment although it was
   * never punished.
   */
  lemma StaleStateAfterIllegalClaim(d: Dealer, valid: seq<Card> -> bool, a: nat, b: nat)
    requires Valid(d) && d.queue == [a, b] && a != b && a < |d.players| && b < |d.players|
    requires Complete(d, a) && !IsLegal(d, a, valid)
    requires |d.players[b].mySet| < SetSize
    ensures CheckSet(d, valid).players[b].state == PlayingAfterPunishment
    ensures CheckSet(d, valid).players[b].setState == NotComplete
  {
    var first := CheckClaim(d.(queue := [b]), a, valid, Playing);
    IllegalClaim(d.(queue := [b]), a, valid, Playing);
    assert first.0.players[b] == d.players[b];
    var second := CheckClaim(first.0.(queue := []), b, valid, first.1);
    ShortClaim(first.0.(queue := []), b, valid, first.1);
    assert Drain(d, valid, Playing) == Drain(first.0, valid, first.1);
    assert Drain(first.0, valid, first.1) == Drain(second.0, valid, second.1);
  }

  /** Cards 0..3 on slots 0..3, no slot empty, the gate open. */
  function FourCards(): Table
  {
    Table([Some(0), Some(1), Some(2), Some(3)], [Some(0), Some(1), Some(2), Some(3)], [], true)
  }

  /** A Playing player with tokens on slots 0 and 1 and presses for 2 and 3 queued. */
  function TwoDownTwoQueued(): Players.Player
  {
    Players.Player(0, 0, Playing, NotComplete, [0, 1], [2, 3], [2, 3])
  }

  /** The first press completes {0,1,2}: the player claims and waits with press 3 still queued. */
  lemma TwoDownClaims()
    ensures Players.RunStep(TwoDownTwoQueued(), FourCards())
      == (Players.Player(0, 0, Waiting, NotComplete, [0, 1, 2], [3], [3]), true)
  {
    var p := TwoDownTwoQueued();
    var q := Players.HandleTokenActions(p.(actions := [3]), FourCards(), Some(2));
    assert 2 !in p.mySet;
    assert q.mySet == [0, 1, 2];
    assert q.slotsToPlace == [3];
  }

  /** The dealer holding that claim, with an empty deck. */
  function ClaimPending(): Dealer
  {
    Dealer(FourCards(), [Players.Player(0, 0, Waiting, NotComplete, [0, 1, 2], [3], [3])], [], [0], false, 60000, 60000)
  }

  lemma FourCardsValid()
    ensures Tables.Valid(FourCards()) && EmptyExact(FourCards())
  {
    var t := FourCards();
    assert InRange(t);
    forall x, y | 0 <= x < |t.slotToCard| && 0 <= y < |t.cardToSlot|
      ensures t.slotToCard[x] == Some(y) <==> t.cardToSlot[y] == Some(x)
    {
      assert t.slotToCard[x] == Some(x) && t.cardToSlot[y] == Some(y);
    }
  }

  lemma ClaimPendingValid()
    ensures Valid(ClaimPending())
  {
    var d := ClaimPending();
    FourCardsValid();
    assert PlayersWellFormed(d.players) by {
      assert Players.Valid(d.players[0]);
    }
    assert TokensOnGrid(d.table, d.players) by {
      assert d.players[0].mySet == [0, 1, 2];
    }
  }

  /** An oracle that rejects cards {0,1,2} makes checkSet punish the claimant, tokens kept. */
  lemma ClaimPendingRejected(valid: seq<Card> -> bool)
    requires !valid([0, 1, 2])
    ensures Valid(ClaimPending())
    ensures CheckSet(ClaimPending(), valid).players[0]
      == Players.Player(0, 0, PlayingAfterPunishment, Illegal, [0, 1, 2], [3], [3])
  {
    ClaimPendingValid();
    var d := ClaimPending();
    var judged := IllegalVerdict(d.(queue := []), 0);
    assert CheckClaim(d.(queue := []), 0, valid, Playing) == (judged, PlayingAfterPunishment) by {
      assert GetSetOfCards(d.table, [0, 1, 2]) == [0, 1, 2];
    }
    DrainOne(d, valid, Playing);
  }

  /** A queue of one claim drains to that claim's verdict alone. */
  lemma DrainOne(d: Dealer, valid: seq<Card> -> bool, state: PlayerState)
    requires Valid(d) && state != Waiting && |d.queue| == 1
    ensures Drain(d, valid, state) == CheckClaim(d.(queue := []), d.queue[0], valid, state)
  {
    var c := CheckClaim(d.(queue := []), d.queue[0], valid, state);
    assert d.queue[1..] == [];
    assert DrainLoop(c.0, valid, c.1) == c;
  }

  /** The pending claimant as checkSet leaves it under such an oracle. */
  function RejectedClaimant(valid: seq<Card> -> bool): (p: Players.Player)
    requires !valid([0, 1, 2])
    ensures p == Players.Player(0, 0, PlayingAfterPunishment, Illegal, [0, 1, 2], [3], [3])
  {
    ClaimPendingRejected(valid);
    CheckSet(ClaimPending(), valid).players[0]
  }

  /**
   * As written, a press queued before a claim is still handled after an
   * Illegal verdict. On a table of cards 0..3, a player with tokens on slots 0
   * and 1 and presses for 2 and 3 queued claims {0,1,2}; checkSet rejects it,
   * the player takes its penalty, and the queued press puts a fourth token on
   * slot 3, leaving it Playing with four tokens down.
   */
  lemma RunStepOverfillsAfterPenalty(valid: seq<Card> -> bool)
    requires !valid([0, 1, 2])
    ensures Players.RunStep(TwoDownTwoQueued(), FourCards()).1
    ensures ClaimPending().players[0] == Players.RunStep(TwoDownTwoQueued(), FourCards()).0
    ensures Valid(ClaimPending())
    ensures var punished := Players.AfterVerdict(RejectedClaimant(valid));
      var after := Players.RunStep(punished, FourCards()).0;
      && punished.state == PlayingAfterPunishment
      && |after.mySet| == 4 && after.state == Playing
      && !Describes(after.state, |after.mySet|)
  {
    TwoDownClaims();
    ClaimPendingValid();
    var punished := Players.Player(0, 0, PlayingAfterPunishment, NotComplete, [0, 1, 2], [3], [3]);
    var q := Players.HandleTokenActions(punished.(actions := []), FourCards(), Some(3));
    assert 3 !in punished.mySet;
    assert q.mySet == [0, 1, 2, 3];
  }
}
