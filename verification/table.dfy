/**
 * The shared table (Table.java): two arrays that map slots to cards and cards
 * to slots, the list of slots without a card, and the gate that tells players
 * whether they may touch the table.
 */
module Tables {
  import opened Lists

  /** A grid position, 0 .. tableSize-1. */
  type Slot = nat

  /** A card id, 0 .. deckSize-1. */
  type Card = nat

  /**
   * slotToCard has one entry per slot and cardToSlot one per card; None stands
   * for the null the arrays hold for "no card" and "not on the table".
   */
  datatype Table = Table(
    slotToCard: seq<Option<Card>>,
    cardToSlot: seq<Option<Slot>>,
    emptySlots: seq<Slot>,
    canPlay: bool)

  /** Every id stored in one array is an index of the other. */
  predicate InRange(t: Table)
  {
    && (forall s :: 0 <= s < |t.slotToCard| && t.slotToCard[s].Some? ==>
          t.slotToCard[s].value < |t.cardToSlot|)
    && (forall c :: 0 <= c < |t.cardToSlot| && t.cardToSlot[c].Some? ==>
          t.cardToSlot[c].value < |t.slotToCard|)
  }

  /** The class invariant: slotToCard[x] == y iff cardToSlot[y] == x. */
  predicate Inverse(t: Table)
  {
    forall x, y :: 0 <= x < |t.slotToCard| && 0 <= y < |t.cardToSlot| ==>
      (t.slotToCard[x] == Some(y) <==> t.cardToSlot[y] == Some(x))
  }

  /** emptySlots names slots of the grid, none of them twice. */
  predicate EmptyListWellFormed(t: Table)
  {
    && Distinct(t.emptySlots)
    && forall i :: 0 <= i < |t.emptySlots| ==> t.emptySlots[i] < |t.slotToCard|
  }

  predicate Valid(t: Table)
  {
    InRange(t) && Inverse(t) && EmptyListWellFormed(t)
  }

  /**
   * emptySlots lists exactly the slots that hold no card. Table itself does
   * not keep this (placeCard leaves emptySlots to the dealer); the dealer does.
   */
  predicate EmptyExact(t: Table)
  {
    forall s :: 0 <= s < |t.slotToCard| ==> (s in t.emptySlots <==> t.slotToCard[s].None?)
  }

  /**
   * The testing constructor: both arrays are cleared to null and every slot
   * index is appended to emptySlots, in order.
   */
  method NewTable(tableSize: nat, deckSize: nat) returns (t: Table)
    ensures |t.slotToCard| == tableSize && |t.cardToSlot| == deckSize
    ensures forall s :: 0 <= s < tableSize ==> t.slotToCard[s] == None
    ensures forall c :: 0 <= c < deckSize ==> t.cardToSlot[c] == None
    ensures Distinct(t.emptySlots)
    ensures forall s: nat :: s in t.emptySlots <==> s < tableSize
    ensures !t.canPlay
    ensures Valid(t) && EmptyExact(t)
  {
    var slotToCard: seq<Option<Card>> := [];
    var emptySlots: seq<Slot> := [];
    var i := 0;
    while i < tableSize
      invariant i <= tableSize
      invariant |slotToCard| == i && |emptySlots| == i
      invariant forall s :: 0 <= s < i ==> slotToCard[s] == None
      invariant forall k :: 0 <= k < i ==> emptySlots[k] == k
    {
      slotToCard := slotToCard + [None];
      emptySlots := emptySlots + [i];
      i := i + 1;
    }
    var cardToSlot: seq<Option<Slot>> := [];
    var j := 0;
    while j < deckSize
      invariant j <= deckSize
      invariant |cardToSlot| == j
      invariant forall c :: 0 <= c < j ==> cardToSlot[c] == None
    {
      cardToSlot := cardToSlot + [None];
      j := j + 1;
    }
    forall s: nat | s < tableSize
      ensures s in emptySlots
    {
      assert emptySlots[s] == s;
    }
    t := Table(slotToCard, cardToSlot, emptySlots, false);
  }

  /** The slots that hold a card. */
  function OccupiedSlots(s: seq<Option<Card>>): set<nat>
  {
    set i | 0 <= i < |s| && s[i].Some?
  }

  /** The slots that hold no card. */
  function VacantSlots(s: seq<Option<Card>>): set<nat>
  {
    set i | 0 <= i < |s| && s[i].None?
  }

  /** countCards' loop: one for every non-null entry. */
  function Occupied(s: seq<Option<Card>>): nat
  {
    if |s| == 0 then 0
    else Occupied(s[..|s| - 1]) + (if s[|s| - 1].Some? then 1 else 0)
  }

  /** The loop's count agrees with the sets of occupied and vacant slots. */
  lemma {:induction false} OccupiedCounts(s: seq<Option<Card>>)
    ensures Occupied(s) == |OccupiedSlots(s)|
    ensures Occupied(s) + |VacantSlots(s)| == |s|
  {
    if |s| > 0 {
      var n := |s| - 1;
      var p := s[..n];
      OccupiedCounts(p);
      assert forall i :: 0 <= i < n ==> s[i] == p[i];
      if s[n].Some? {
        assert OccupiedSlots(s) == OccupiedSlots(p) + {n};
        assert VacantSlots(s) == VacantSlots(p);
      } else {
        assert OccupiedSlots(s) == OccupiedSlots(p);
        assert VacantSlots(s) == VacantSlots(p) + {n};
      }
    }
  }

  /** countCards: the number of slots holding a card, at most the table size. */
  function CountCards(t: Table): (n: nat)
    ensures n == |OccupiedSlots(t.slotToCard)|
    ensures n <= |t.slotToCard|
  {
    OccupiedCounts(t.slotToCard);
    Occupied(t.slotToCard)
  }

  /**
   * While emptySlots is exact, the cards on the table and the listed empty
   * slots together account for every slot.
   */
  lemma CountCardsPlusEmptySlots(t: Table)
    requires Valid(t) && EmptyExact(t)
    ensures CountCards(t) + |t.emptySlots| == |t.slotToCard|
  {
    OccupiedCounts(t.slotToCard);
    ListedAreVacant(t);
  }

  /** An exact, duplicate-free emptySlots has one entry per vacant slot. */
  lemma ListedAreVacant(t: Table)
    requires EmptyListWellFormed(t) && EmptyExact(t)
    ensures |t.emptySlots| == |VacantSlots(t.slotToCard)|
  {
    DistinctCardinality(t.emptySlots);
    var listed := set x: nat | x in t.emptySlots;
    var vacant := VacantSlots(t.slotToCard);
    forall x | x in listed
      ensures x in vacant
    {
      var i :| 0 <= i < |t.emptySlots| && t.emptySlots[i] == x;
      assert x < |t.slotToCard|;
    }
    forall x | x in vacant
      ensures x in listed
    {
      assert x in t.emptySlots;
    }
    assert listed == vacant;
  }

  /**
   * placeCard: records the card in the slot and the slot for the card. Nothing
   * else moves, and emptySlots is left to the caller.
   */
  function PlaceCard(t: Table, card: Card, slot: Slot): (r: Table)
    requires slot < |t.slotToCard| && card < |t.cardToSlot|
    ensures |r.slotToCard| == |t.slotToCard| && |r.cardToSlot| == |t.cardToSlot|
    ensures r.slotToCard[slot] == Some(card) && r.cardToSlot[card] == Some(slot)
    ensures forall s :: 0 <= s < |t.slotToCard| && s != slot ==> r.slotToCard[s] == t.slotToCard[s]
    ensures forall c :: 0 <= c < |t.cardToSlot| && c != card ==> r.cardToSlot[c] == t.cardToSlot[c]
    ensures r.emptySlots == t.emptySlots && r.canPlay == t.canPlay
  {
    t.(cardToSlot := t.cardToSlot[card := Some(slot)], slotToCard := t.slotToCard[slot := Some(card)])
  }

  /** Placing an off-table card into an empty slot keeps the two arrays inverse. */
  lemma PlaceCardKeepsValid(t: Table, card: Card, slot: Slot)
    requires Valid(t)
    requires slot < |t.slotToCard| && card < |t.cardToSlot|
    requires t.slotToCard[slot] == None && t.cardToSlot[card] == None
    ensures Valid(PlaceCard(t, card, slot))
  {
    var r := PlaceCard(t, card, slot);
    forall x, y | 0 <= x < |r.slotToCard| && 0 <= y < |r.cardToSlot|
      ensures r.slotToCard[x] == Some(y) <==> r.cardToSlot[y] == Some(x)
    {
      if x != slot && y != card {
        assert r.slotToCard[x] == t.slotToCard[x] && r.cardToSlot[y] == t.cardToSlot[y];
      } else if x == slot && y != card {
        assert t.cardToSlot[y] != Some(slot);
      } else if x != slot && y == card {
        assert t.slotToCard[x] != Some(card);
      }
    }
  }

  /**
   * removeCard: an occupied slot loses its card and the card its slot; an empty
   * slot leaves both arrays alone. Either way the slot ends up listed in
   * emptySlots, appended only when it was missing.
   */
  function RemoveCard(t: Table, slot: Slot): (r: Table)
    requires Valid(t) && slot < |t.slotToCard|
    ensures Valid(r)
    ensures |r.slotToCard| == |t.slotToCard| && |r.cardToSlot| == |t.cardToSlot|
    ensures r.slotToCard == t.slotToCard[slot := None]
    ensures t.slotToCard[slot].Some? ==> r.cardToSlot[t.slotToCard[slot].value] == None
    ensures t.slotToCard[slot] == None ==> r.slotToCard == t.slotToCard && r.cardToSlot == t.cardToSlot
    ensures forall s :: 0 <= s < |t.slotToCard| && s != slot ==> r.slotToCard[s] == t.slotToCard[s]
    ensures forall c :: 0 <= c < |t.cardToSlot| && t.cardToSlot[c] != Some(slot) ==>
      r.cardToSlot[c] == t.cardToSlot[c]
    ensures slot in r.emptySlots
    ensures forall x :: x != slot ==> (x in r.emptySlots <==> x in t.emptySlots)
    ensures slot in t.emptySlots ==> r.emptySlots == t.emptySlots
    ensures EmptyExact(t) ==> EmptyExact(r)
    ensures r.canPlay == t.canPlay
  {
    var cleared :=
      if t.slotToCard[slot].Some? then
        var card := t.slotToCard[slot].value;
        t.(cardToSlot := t.cardToSlot[card := None], slotToCard := t.slotToCard[slot := None])
      else t;
    var r := if slot in cleared.emptySlots then cleared
             else cleared.(emptySlots := cleared.emptySlots + [slot]);
    assert Inverse(r) by {
      forall x, y | 0 <= x < |r.slotToCard| && 0 <= y < |r.cardToSlot|
        ensures r.slotToCard[x] == Some(y) <==> r.cardToSlot[y] == Some(x)
      {
        assert t.slotToCard[x] == Some(y) <==> t.cardToSlot[y] == Some(x);
      }
    }
    assert Distinct(r.emptySlots);
    r
  }

  /** removeCard takes exactly the card in its slot off the table. */
  lemma RemoveCardTakesItsCard(t: Table, slot: Slot)
    requires Valid(t) && slot < |t.slotToCard|
    ensures CardsOf(RemoveCard(t, slot).slotToCard) + Held(t.slotToCard[slot]) == CardsOf(t.slotToCard)
  {
    assert RemoveCard(t, slot).slotToCard == t.slotToCard[slot := None];
    CardsOfUpdate(t.slotToCard, slot, None);
  }

  /** Removing from a slot twice is the same as removing once. */
  lemma RemoveCardIdempotent(t: Table, slot: Slot)
    requires Valid(t) && slot < |t.slotToCard|
    ensures RemoveCard(RemoveCard(t, slot), slot) == RemoveCard(t, slot)
  {
  }

  /** The card an entry holds, as a multiset of zero or one cards. */
  function Held(o: Option<Card>): multiset<Card>
  {
    if o.Some? then multiset{o.value} else multiset{}
  }

  /** The cards lying on the table, counted with multiplicity. */
  function CardsOf(s: seq<Option<Card>>): multiset<Card>
  {
    if |s| == 0 then multiset{} else CardsOf(s[..|s| - 1]) + Held(s[|s| - 1])
  }

  /** There are as many cards on the table as countCards counts. */
  lemma {:induction false} CardsOfSize(s: seq<Option<Card>>)
    ensures |CardsOf(s)| == Occupied(s)
  {
    if |s| > 0 {
      CardsOfSize(s[..|s| - 1]);
    }
  }

  /** Overwriting one entry trades the card it held for the card it now holds. */
  lemma {:induction false} CardsOfUpdate(s: seq<Option<Card>>, i: nat, v: Option<Card>)
    requires i < |s|
    ensures CardsOf(s[i := v]) + Held(s[i]) == CardsOf(s) + Held(v)
  {
    var n := |s| - 1;
    var u := s[i := v];
    if i == n {
      assert u[..n] == s[..n];
    } else {
      var below := CardsOf(u[..n]);
      var rest := CardsOf(s[..n]);
      assert below + Held(s[i]) == rest + Held(v) by {
        assert u[..n] == s[..n][i := v];
        assert s[..n][i] == s[i];
        CardsOfUpdate(s[..n], i, v);
      }
      assert CardsOf(u) == below + Held(s[n]) by {
        assert u[n] == s[n];
      }
      forall x ensures (CardsOf(u) + Held(s[i]))[x] == (CardsOf(s) + Held(v))[x] {
        assert (below + Held(s[i]))[x] == (rest + Held(v))[x];
      }
    }
  }

  /** A table with every slot empty holds no card. */
  lemma {:induction false} AllEmptyHoldsNothing(cells: seq<Option<Card>>)
    requires forall s :: 0 <= s < |cells| ==> cells[s] == None
    ensures CardsOf(cells) == multiset{}
  {
    if |cells| > 0 {
      AllEmptyHoldsNothing(cells[..|cells| - 1]);
    }
  }

  /** The cards sitting in the listed slots (a slot off the grid holds none). */
  function CardsAt(cells: seq<Option<Card>>, slots: seq<Slot>): multiset<Card>
  {
    if |slots| == 0 then multiset{}
    else (if slots[0] < |cells| then Held(cells[slots[0]]) else multiset{}) + CardsAt(cells, slots[1..])
  }

  /** The slot array after emptying the listed slots one after the other. */
  function Cleared(cells: seq<Option<Card>>, slots: seq<Slot>): (r: seq<Option<Card>>)
    ensures |r| == |cells|
    decreases |slots|
  {
    if |slots| == 0 then cells
    else Cleared(if slots[0] < |cells| then cells[slots[0] := None] else cells, slots[1..])
  }

  /** CardsAt only looks at the listed slots. */
  lemma {:induction false} CardsAtFrame(cells: seq<Option<Card>>, k: nat, slots: seq<Slot>)
    requires k < |cells| && k !in slots
    ensures CardsAt(cells[k := None], slots) == CardsAt(cells, slots)
    decreases |slots|
  {
    if |slots| > 0 {
      CardsAtFrame(cells, k, slots[1..]);
    }
  }

  /**
   * Emptying a duplicate-free list of slots takes exactly the cards in them
   * off the table, no more and no fewer.
   */
  lemma {:induction false} ClearedConserves(cells: seq<Option<Card>>, slots: seq<Slot>)
    requires Distinct(slots)
    ensures CardsOf(Cleared(cells, slots)) + CardsAt(cells, slots) == CardsOf(cells)
    decreases |slots|
  {
    if |slots| > 0 {
      var k := slots[0];
      var rest := slots[1..];
      assert Distinct(rest);
      if k < |cells| {
        var u := cells[k := None];
        var c := Cleared(u, rest);
        assert Cleared(cells, slots) == c;
        ClearedConserves(u, rest);
        CardsOfUpdate(cells, k, None);
        assert k !in rest;
        CardsAtFrame(cells, k, rest);
        var h := Held(cells[k]);
        var at := CardsAt(cells, rest);
        assert CardsAt(cells, slots) == h + at;
        assert CardsOf(c) + at == CardsOf(u);
        assert CardsOf(u) + h == CardsOf(cells);
      } else {
        ClearedConserves(cells, rest);
      }
    }
  }

  /** canPlay(): the gate as the dealer last set it. */
  function CanPlay(t: Table): bool
  {
    t.canPlay
  }

  /** gameOn: opens the gate and changes nothing else. */
  function GameOn(t: Table): (r: Table)
    ensures CanPlay(r)
    ensures r.slotToCard == t.slotToCard && r.cardToSlot == t.cardToSlot && r.emptySlots == t.emptySlots
  {
    t.(canPlay := true)
  }

  /** gameOff: closes the gate and changes nothing else. */
  function GameOff(t: Table): (r: Table)
    ensures !CanPlay(r)
    ensures r.slotToCard == t.slotToCard && r.cardToSlot == t.cardToSlot && r.emptySlots == t.emptySlots
  {
    t.(canPlay := false)
  }

  /**
   * canPlay() reports the last switch the dealer threw, whatever came before
   * it: true after gameOn, false after gameOff.
   */
  lemma CanPlayIsLastSwitch(t: Table)
    ensures CanPlay(GameOn(GameOff(t))) && !CanPlay(GameOff(GameOn(t)))
    ensures GameOn(GameOff(t)) == GameOn(t) && GameOff(GameOn(t)) == GameOff(t)
  {
  }
}
