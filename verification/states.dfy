/**
 * The player's life-cycle state (PlayerState.java) and the verdict the dealer
 * writes into a player (SetState, whose source file is not part of this model).
 */
module States {

  /** A player holds at most this many tokens; the code writes the literal 3. */
  const SetSize: nat := 3

  /**
   * Playing: still collecting tokens.
   * PlayingAfterPunishment: the last claim was illegal and has been punished.
   * Waiting: three tokens are down and the claim sits in the dealer's queue.
   */
  datatype PlayerState = Playing | PlayingAfterPunishment | Waiting

  /** The verdict slot the dealer fills in before waking a waiting player. */
  datatype SetState = NotComplete | Legal | Illegal

  /**
   * Tokens a player still has in hand when `placed` of them are on the table.
   */
  function InHand(placed: nat): nat
  {
    if placed <= SetSize then SetSize - placed else 0
  }

  /**
   * The documented meaning of each state: Playing holds one to three tokens in
   * hand, PlayingAfterPunishment and Waiting hold none (all three lie on the
   * table).
   */
  predicate Describes(state: PlayerState, placed: nat)
  {
    match state
    case Playing => InHand(placed) >= 1
    case PlayingAfterPunishment => placed == SetSize
    case Waiting => placed == SetSize
  }

  /**
   * Each state fixes how many tokens are on the table: a Playing player has at
   * most two down, the other two states exactly three.
   */
  lemma DescribesPlaced(state: PlayerState, placed: nat)
    requires Describes(state, placed)
    ensures placed <= SetSize
    ensures state == Playing <==> placed < SetSize
    ensures state != Playing ==> InHand(placed) == 0
  {
  }
}
