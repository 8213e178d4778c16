/**
 * A player's data and the steps its thread takes (Player.java): toggling
 * tokens, filtering key presses into its action queue, handing a full set to
 * the dealer, and acting on the dealer's verdict.
 */
module Players {
  import opened Lists
  import opened States
  import opened Tables

  /**
   * mySet holds the slots carrying this player's tokens, slotsToPlace the slots
   * it may still put a token on, and actions the key presses waiting in
   * queueOfActions.
   */
  datatype Player = Player(
    id: nat,
    score: nat,
    state: PlayerState,
    setState: SetState,
    mySet: seq<Slot>,
    slotsToPlace: seq<Slot>,
    actions: seq<Slot>)

  /** queueOfActions is bounded by the feature size, which is 3. */
  const ActionCapacity: nat := SetSize

  /** No slot is listed twice, and no slot is both chosen and still to place. */
  predicate Valid(p: Player)
  {
    && Distinct(p.mySet)
    && Distinct(p.slotsToPlace)
    && forall s :: s in p.mySet ==> s !in p.slotsToPlace
  }

  /**
   * The constructor: no score, Playing with nothing to verify, no tokens, and
   * every slot of the table still to place.
   */
  function NewPlayer(id: nat, tableSize: nat): (p: Player)
    ensures Valid(p)
    ensures p.id == id && p.score == 0
    ensures p.state == Playing && p.setState == NotComplete
    ensures p.mySet == [] && p.actions == []
    ensures forall s: nat :: s in p.slotsToPlace <==> s < tableSize
    ensures Describes(p.state, |p.mySet|)
  {
    Player(id, 0, Playing, NotComplete, [], Range(tableSize), [])
  }

  /** The fields a token operation never touches are the same in p and r. */
  predicate SameStatus(p: Player, r: Player)
  {
    r.id == p.id && r.score == p.score && r.state == p.state
    && r.setState == p.setState && r.actions == p.actions
  }

  /**
   * handleTokenActions: a null slot, or a slot with no card, changes nothing;
   * otherwise the slot's token is flipped, moving the slot from mySet to
   * slotsToPlace or back. No other slot's membership in either list changes.
   */
  function HandleTokenActions(p: Player, t: Table, slot: Option<Slot>): (r: Player)
    requires slot.Some? ==> slot.value < |t.slotToCard|
    ensures SameStatus(p, r)
    ensures slot.None? || t.slotToCard[slot.value].None? ==> r == p
    ensures forall x :: slot != Some(x) ==>
      (x in r.mySet <==> x in p.mySet) && (x in r.slotsToPlace <==> x in p.slotsToPlace)
    ensures Valid(p) ==> Valid(r)
    ensures Valid(p) && slot.Some? && t.slotToCard[slot.value].Some? ==>
      && (slot.value in r.mySet <==> slot.value !in p.mySet)
      && (slot.value in r.slotsToPlace <==> slot.value in p.mySet)
      && |r.mySet| == (if slot.value in p.mySet then |p.mySet| - 1 else |p.mySet| + 1)
  {
    if slot.None? || t.slotToCard[slot.value].None? then p
    else
      var s := slot.value;
      if s in p.mySet then
        p.(mySet := RemoveFirst(p.mySet, s), slotsToPlace := p.slotsToPlace + [s])
      else
        var r := p.(mySet := p.mySet + [s], slotsToPlace := RemoveFirst(p.slotsToPlace, s));
        assert Distinct(p.mySet) ==> Distinct(r.mySet);
        r
  }

  /**
   * Toggling the same slot twice restores which slots carry a token. Every
   * other slot keeps its place in slotsToPlace; the toggled slot, when it has
   * a card, ends up in slotsToPlace exactly when it carries no token.
   */
  lemma ToggleTwiceRestores(p: Player, t: Table, slot: Slot)
    requires Valid(p) && slot < |t.slotToCard|
    ensures var r := HandleTokenActions(HandleTokenActions(p, t, Some(slot)), t, Some(slot));
      && (forall x :: x in r.mySet <==> x in p.mySet)
      && (forall x :: x != slot ==> (x in r.slotsToPlace <==> x in p.slotsToPlace))
      && (t.slotToCard[slot].Some? ==> (slot in r.slotsToPlace <==> slot !in p.mySet))
  {
    var once := HandleTokenActions(p, t, Some(slot));
    var twice := HandleTokenActions(once, t, Some(slot));
    if t.slotToCard[slot].Some? {
      assert slot in twice.mySet <==> slot in p.mySet;
    }
  }

  /** clearPlayerSet: drops every token; slotsToPlace is not given the slots back. */
  function ClearPlayerSet(p: Player): (r: Player)
    ensures SameStatus(p, r)
    ensures r.mySet == []
    ensures r.slotsToPlace == p.slotsToPlace
    ensures Valid(p) ==> Valid(r)
  {
    p.(mySet := [])
  }

  /**
   * removeTokenFromSlot: a slot carrying a token loses it and goes back to
   * slotsToPlace; a slot without one is a no-op.
   */
  function RemoveTokenFromSlot(p: Player, slot: Slot): (r: Player)
    ensures SameStatus(p, r)
    ensures slot !in p.mySet ==> r == p
    ensures slot in p.mySet ==> slot in r.slotsToPlace
    ensures forall x :: x != slot ==> (x in r.mySet <==> x in p.mySet)
    ensures forall x :: x in r.mySet ==> x in p.mySet
    ensures Valid(p) ==> Valid(r) && slot !in r.mySet
  {
    if slot in p.mySet then
      p.(mySet := RemoveFirst(p.mySet, slot), slotsToPlace := p.slotsToPlace + [slot])
    else p
  }

  /**
   * removeTokensFromSlots: removeTokenFromSlot for every listed slot, in order;
   * afterwards none of them carries a token and every other slot keeps its own.
   */
  function RemoveTokensFromSlots(p: Player, toRemove: seq<Slot>): (r: Player)
    ensures SameStatus(p, r)
    ensures forall x :: x !in toRemove ==> (x in r.mySet <==> x in p.mySet)
    ensures forall x :: x in r.mySet ==> x in p.mySet
    ensures Valid(p) ==> Valid(r) && forall s :: s in toRemove ==> s !in r.mySet
    decreases |toRemove|
  {
    if |toRemove| == 0 then p
    else RemoveTokensFromSlots(RemoveTokenFromSlot(p, toRemove[0]), toRemove[1..])
  }

  /** Lifting every token a player holds, in its own order, leaves it with none. */
  lemma {:induction false} RemoveOwnTokens(p: Player)
    ensures RemoveTokensFromSlots(p, p.mySet).mySet == []
    decreases |p.mySet|
  {
    if |p.mySet| > 0 {
      var q := RemoveTokenFromSlot(p, p.mySet[0]);
      assert q.mySet == p.mySet[1..];
      RemoveOwnTokens(q);
    }
  }

  /**
   * point: the score goes up by exactly one and the player is back to Playing
   * with no pending verdict; its tokens are not touched here.
   */
  function Point(p: Player): (r: Player)
    ensures r.score == p.score + 1 && r.score > 0
    ensures r.state == Playing && r.setState == NotComplete
    ensures r.id == p.id && r.mySet == p.mySet && r.slotsToPlace == p.slotsToPlace && r.actions == p.actions
  {
    p.(score := p.score + 1, setState := NotComplete, state := Playing)
  }

  /** penalty: only the pending verdict is cleared; score and state stay. */
  function Penalty(p: Player): (r: Player)
    ensures r.score == p.score && r.state == p.state && r.setState == NotComplete
    ensures r.id == p.id && r.mySet == p.mySet && r.slotsToPlace == p.slotsToPlace && r.actions == p.actions
  {
    p.(setState := NotComplete)
  }

  /** queueOfActions.offer: appends unless the queue is full, in which case the press is dropped. */
  function Offer(p: Player, slot: Slot): (r: Player)
    ensures r == p.(actions := r.actions)
    ensures |p.actions| < ActionCapacity ==> r.actions == p.actions + [slot]
    ensures |p.actions| >= ActionCapacity ==> r == p
  {
    if |p.actions| < ActionCapacity then p.(actions := p.actions + [slot]) else p
  }

  /**
   * keyPressed: the admission filter in front of the action queue. `canPlay`
   * is the table's gate, `haveEmpty` the dealer's tableHaveEmptySlots and
   * `emptySlots` the table's list of empty slots.
   */
  function KeyPressed(p: Player, canPlay: bool, haveEmpty: bool, emptySlots: seq<Slot>, slot: Option<Slot>): (r: Player)
    ensures r == p.(actions := r.actions)
    ensures r.actions == p.actions || (slot.Some? && r.actions == p.actions + [slot.value])
    ensures r.actions != p.actions <==>
      && p.state != Waiting && canPlay && p.setState == NotComplete && slot.Some?
      && !(haveEmpty && slot.value in emptySlots)
      && !(p.state == PlayingAfterPunishment && |p.mySet| == SetSize && slot.value !in p.mySet)
      && |p.actions| < ActionCapacity
  {
    if p.state == Waiting || !canPlay || p.setState != NotComplete || slot.None? then p
    else
      var s := slot.value;
      if p.state == Playing then
        if haveEmpty then
          if s in emptySlots then p else Offer(p, s)
        else Offer(p, s)
      else
        assert p.state == PlayingAfterPunishment;
        if haveEmpty && s in emptySlots then p
        else if |p.mySet| == SetSize then
          if s in p.mySet then Offer(p, s) else p
        else Offer(p, s)
  }

  /** What the run loop does after toggling: claim a full set, or leave punishment once the set is not full. */
  function AfterToggle(q: Player): (r: (Player, bool))
  {
    if |q.mySet| == SetSize then
      if q.state == Playing then (q.(state := Waiting), true) else (q, false)
    else if q.state == PlayingAfterPunishment then (q.(state := Playing), false)
    else (q, false)
  }

  /**
   * One turn of the player's run loop on the head of its action queue: the
   * slot is toggled; a Playing player whose set is now full claims it (the
   * flag asks the dealer to enqueue the id) and starts Waiting; a punished
   * player whose set is not full plays again.
   */
  function RunStep(p: Player, t: Table): (r: (Player, bool))
    requires |p.actions| > 0 && p.actions[0] < |t.slotToCard|
    ensures r.0.actions == p.actions[1..]
    ensures r.0.mySet == HandleTokenActions(p, t, Some(p.actions[0])).mySet
    ensures r.0.slotsToPlace == HandleTokenActions(p, t, Some(p.actions[0])).slotsToPlace
    ensures r.0.score == p.score && r.0.setState == p.setState && r.0.id == p.id
    ensures r.1 <==> p.state == Playing && |r.0.mySet| == SetSize
    ensures r.1 ==> r.0.state == Waiting
    ensures !r.1 && p.state != Waiting ==> r.0.state != Waiting
    ensures p.state == Waiting ==> r.0.state == Waiting
    ensures p.state == PlayingAfterPunishment && |r.0.mySet| != SetSize ==> r.0.state == Playing
    ensures p.state == Playing && |r.0.mySet| != SetSize ==> r.0.state == Playing
    ensures p.state == PlayingAfterPunishment && |r.0.mySet| == SetSize ==> r.0.state == PlayingAfterPunishment
    ensures Valid(p) ==> Valid(r.0)
  {
    var q := HandleTokenActions(p.(actions := p.actions[1..]), t, Some(p.actions[0]));
    AfterToggle(q)
  }

  /**
   * Stepping on a key press that keyPressed would admit now keeps the
   * documented meaning of the state: a claim is made exactly with three tokens
   * down, and a punished player leaves punishment by lifting a token.
   */
  lemma RunStepKeepsDescribes(p: Player, t: Table)
    requires Valid(p) && Describes(p.state, |p.mySet|) && p.state != Waiting
    requires |p.actions| > 0 && p.actions[0] < |t.slotToCard|
    requires p.state == PlayingAfterPunishment ==> p.actions[0] in p.mySet
    ensures Describes(RunStep(p, t).0.state, |RunStep(p, t).0.mySet|)
    ensures RunStep(p, t).1 ==> |RunStep(p, t).0.mySet| == SetSize
  {
    var q := HandleTokenActions(p.(actions := p.actions[1..]), t, Some(p.actions[0]));
    assert Valid(p.(actions := p.actions[1..]));
    if t.slotToCard[p.actions[0]].Some? {
      assert |q.mySet| == (if p.actions[0] in p.mySet then |p.mySet| - 1 else |p.mySet| + 1);
    }
  }

  /**
   * The corrected run-loop turn: a slot that would become a fourth token is
   * dropped instead of toggled, as the three-token rule intends.
   */
  function RunStepBounded(p: Player, t: Table): (r: (Player, bool))
    requires |p.actions| > 0 && p.actions[0] < |t.slotToCard|
    ensures r.0.actions == p.actions[1..]
    ensures !(p.actions[0] !in p.mySet && |p.mySet| >= SetSize) ==>
      && r.0.mySet == HandleTokenActions(p, t, Some(p.actions[0])).mySet
      && r.0.slotsToPlace == HandleTokenActions(p, t, Some(p.actions[0])).slotsToPlace
    ensures p.actions[0] !in p.mySet && |p.mySet| >= SetSize ==>
      r.0.mySet == p.mySet && r.0.slotsToPlace == p.slotsToPlace
    ensures r.0.score == p.score && r.0.setState == p.setState && r.0.id == p.id
    ensures r.1 <==> p.state == Playing && |r.0.mySet| == SetSize
    ensures r.1 ==> r.0.state == Waiting
    ensures !r.1 && p.state != Waiting ==> r.0.state != Waiting
    ensures p.state == Waiting ==> r.0.state == Waiting
    ensures p.state == PlayingAfterPunishment && |r.0.mySet| != SetSize ==> r.0.state == Playing
    ensures p.state == Playing && |r.0.mySet| != SetSize ==> r.0.state == Playing
    ensures p.state == PlayingAfterPunishment && |r.0.mySet| == SetSize ==> r.0.state == PlayingAfterPunishment
    ensures Valid(p) ==> Valid(r.0)
  {
    var popped := p.(actions := p.actions[1..]);
    var s := p.actions[0];
    var q := if s !in p.mySet && |p.mySet| >= SetSize then popped
             else HandleTokenActions(popped, t, Some(s));
    AfterToggle(q)
  }

  /**
   * With the correction a player never holds more than three tokens, and the
   * state keeps its documented meaning for every queued press, however stale.
   */
  lemma RunStepBoundedKeepsDescribes(p: Player, t: Table)
    requires Valid(p) && Describes(p.state, |p.mySet|) && p.state != Waiting
    requires |p.actions| > 0 && p.actions[0] < |t.slotToCard|
    ensures |RunStepBounded(p, t).0.mySet| <= SetSize
    ensures Describes(RunStepBounded(p, t).0.state, |RunStepBounded(p, t).0.mySet|)
  {
    var popped := p.(actions := p.actions[1..]);
    assert Valid(popped);
    var s := p.actions[0];
    if !(s !in p.mySet && |p.mySet| >= SetSize) && t.slotToCard[s].Some? {
      var q := HandleTokenActions(popped, t, Some(s));
      assert |q.mySet| == (if s in p.mySet then |p.mySet| - 1 else |p.mySet| + 1);
    }
  }

  /**
   * The bound needs nothing about the state: any player holding at most three
   * tokens, including one the dealer left PlayingAfterPunishment with fewer
   * than three, still holds at most three after a corrected turn.
   */
  lemma RunStepBoundedStaysBounded(p: Player, t: Table)
    requires Valid(p) && |p.mySet| <= SetSize
    requires |p.actions| > 0 && p.actions[0] < |t.slotToCard|
    ensures |RunStepBounded(p, t).0.mySet| <= SetSize
  {
    var popped := p.(actions := p.actions[1..]);
    assert Valid(popped);
  }

  /**
   * The run loop's reaction to the verdict the dealer left in set_state:
   * Legal earns a point, Illegal a penalty, and a stale claim (NotComplete)
   * nothing. The verdict is consumed in every case.
   */
  function AfterVerdict(p: Player): (r: Player)
    ensures r.setState == NotComplete
    ensures r.score == (if p.setState == Legal then p.score + 1 else p.score)
    ensures r.state == (if p.setState == Legal then Playing else p.state)
    ensures r.id == p.id && r.mySet == p.mySet && r.slotsToPlace == p.slotsToPlace && r.actions == p.actions
  {
    match p.setState
    case Legal => Point(p)
    case Illegal => Penalty(p)
    case NotComplete => p
  }
}
