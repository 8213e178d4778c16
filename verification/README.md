# Set game core, modelled in Dafny

A model of the game state of the Java Set game (package `bguspl.set.ex`):

- the **table**: two partial maps, slot→card and card→slot, that must stay exact inverses, the list of empty slots, and the `canPlay` gate;
- the **players**: the slots a player has tokens on (`mySet`), the slots it may still place on (`slotsToPlace`), its `PlayerState`, its pending verdict (`SetState`), its score and its queue of key presses;
- the **dealer**: the deck, dealing cards into empty slots, taking them back, the FIFO queue of claims, the `checkSet` verdicts, the winners and the integer countdown.

The game runs on several threads. Here, each thread's step on the shared state is one atomic transition of an immutable value: `Tables.Table`, `Players.Player` and `Dealers.Dealer`. A Java `Integer[]` with `null` entries is a `seq<Option<nat>>`. A `List<Integer>` is a `seq<nat>`.

The set-validity test of the game's utility class is not part of this model. It enters as a function parameter `valid: seq<Card> -> bool`, and the proofs hold for every such function. Every shuffle likewise becomes a parameter or a given order:

- `placeCardsOnTable` deals into `emptySlots` in the order the list holds. The proofs hold for every order, so they hold for the shuffled one.
- `removeAllCardsFromTable` visits the slots in an `order` argument that is required to cover the grid.

The code fixes the set size at 3 (`checkSet`, `getSetOfCards` and the player's run loop write the literal), so `States.SetSize` is 3. The press queue's capacity is the configuration value `featureSize` (Player.java:132); the model takes it to be 3 as well, the size of a set.

Modules, one per source class:

- `Lists`: the `java.util.List` operations the code uses, and `Option`.
- `States`: `PlayerState`, its documented meaning, and `SetState`.
- `Tables`: `Table.java`.
- `Players`: `Player.java`.
- `Dealers`: `Dealer.java`'s bookkeeping.
- `Clock`: `Dealer.java`'s countdown.
- `Winners`: `Dealer.java`'s `announceWinners`.

## Model

| member | source | states |
|---|---|---|
| States.DescribesPlaced | main/java/bguspl/set/ex/PlayerState.java:4-12 | In each state the number of tokens on the table is fixed: Playing has at most two down (at least one in hand), PlayingAfterPunishment and Waiting have all three down and none in hand. |
| Lists.RemoveEach | main/java/bguspl/set/ex/Dealer.java:303-309 | Removing each listed value from a duplicate-free list leaves exactly the values that were present and not listed, still without duplicates. |
| Tables.NewTable | main/java/bguspl/set/ex/Table.java:57-80 | A new table has every slot empty and every card off the table, lists each slot index exactly once as empty, has the gate closed, and satisfies the bijection invariant. |
| Tables.CountCards | main/java/bguspl/set/ex/Table.java:128-134 | countCards is the number of slots holding a card and never exceeds the table size. |
| Tables.CountCardsPlusEmptySlots | main/java/bguspl/set/ex/Table.java:128-134 | On a consistent table, the cards counted plus the slots listed empty add up to the table size. |
| Tables.PlaceCard | main/java/bguspl/set/ex/Table.java:143-155 | placeCard puts the card in the slot in both directions of the mapping and changes no other entry, the empty-slot list or the gate. |
| Tables.PlaceCardKeepsValid | main/java/bguspl/set/ex/Table.java:8-12 | Placing an off-table card into an empty slot keeps slotToCard[x] == y if and only if cardToSlot[y] == x. |
| Tables.RemoveCard | main/java/bguspl/set/ex/Table.java:161-180 | removeCard clears both directions for an occupied slot and leaves both maps unchanged for an empty one. Every other slot and card is untouched. Afterwards the slot is listed empty exactly once, and the bijection and the exactness of the empty list are kept. |
| Tables.RemoveCardIdempotent | main/java/bguspl/set/ex/Table.java:177-179 | Removing from the same slot twice gives the same table as removing once. |
| Tables.RemoveCardTakesItsCard | main/java/bguspl/set/ex/Table.java:169-175 | removeCard takes off the table exactly the card that was in the slot, and no other. |
| Tables.ClearedConserves | main/java/bguspl/set/ex/Dealer.java:277-281 | Emptying a duplicate-free list of slots one by one removes exactly the cards in those slots, counted as a multiset. |
| Tables.GameOn | main/java/bguspl/set/ex/Table.java:224-226 | gameOn opens the gate and changes neither map nor the empty-slot list. |
| Tables.GameOff | main/java/bguspl/set/ex/Table.java:231-233 | gameOff closes the gate and changes neither map nor the empty-slot list. |
| Tables.CanPlayIsLastSwitch | main/java/bguspl/set/ex/Table.java:217-233 | canPlay() reports the last switch whatever came before it: true after gameOn, false after gameOff. |
| Players.NewPlayer | main/java/bguspl/set/ex/Player.java:124-144 | A new player has score 0, is Playing with no pending verdict, no tokens and no presses, may place on every slot of the table, and its state describes its tokens. |
| Players.HandleTokenActions | main/java/bguspl/set/ex/Player.java:424-439 | A null slot or a slot without a card changes nothing. Otherwise the slot's membership in mySet flips, it moves to or from slotsToPlace, and no other slot's membership in either list changes. |
| Players.ToggleTwiceRestores | main/java/bguspl/set/ex/Player.java:429-437 | Toggling the same slot twice restores every slot's membership in mySet. |
| Players.ClearPlayerSet | main/java/bguspl/set/ex/Player.java:444-446 | clearPlayerSet leaves mySet empty and does not give the slots back to slotsToPlace. |
| Players.RemoveTokenFromSlot | main/java/bguspl/set/ex/Player.java:491-497 | A slot without a token is a no-op. A slot with one loses it, goes back to slotsToPlace, and other slots keep their tokens. |
| Players.RemoveTokensFromSlots | main/java/bguspl/set/ex/Player.java:480-486 | Afterwards none of the listed slots carries the player's token, every unlisted slot keeps its own, and no token is added. |
| Players.RemoveOwnTokens | main/java/bguspl/set/ex/Player.java:480-497 | Lifting tokens from a list equal to the player's own mySet leaves it with none. |
| Players.Point | main/java/bguspl/set/ex/Player.java:359-383 | point raises the score by exactly one, so it stays positive, and sets the player back to Playing with verdict NotComplete. |
| Players.Penalty | main/java/bguspl/set/ex/Player.java:388-412 | penalty keeps the score and the state and resets the verdict to NotComplete. |
| Players.Offer | main/java/bguspl/set/ex/Player.java:132 | The press queue holds at most featureSize (3) presses. A press joins at the tail only when there is room. |
| Players.KeyPressed | main/java/bguspl/set/ex/Player.java:307-351 | A press is enqueued if and only if: the player is not Waiting, the gate is open, no verdict is pending, and the slot is non-null; the slot is not listed empty while the dealer reports empty slots; a PlayingAfterPunishment player with a full set presses one of its own slots; and the queue has room. |
| Players.RunStep | main/java/bguspl/set/ex/Player.java:180-224 | One run-loop step pops the oldest press and toggles it, in both mySet and slotsToPlace, as handleTokenActions does. A Waiting player stays Waiting. A third token claims a set and turns a Playing player into Waiting, and only then is a claim made. A PlayingAfterPunishment player whose set is not full becomes Playing, one whose set is full stays punished, and a Playing player with a set that is not full stays Playing. |
| Players.RunStepKeepsDescribes | main/java/bguspl/set/ex/Player.java:180-224 | When a punished player's press is on one of its own slots, the step keeps the state describing the tokens. A claim always holds exactly three tokens. |
| Players.RunStepBounded | main/java/bguspl/set/ex/Player.java:180-224 | The step with the three-token bound toggles the press exactly as RunStep does, except a press that would be a fourth token: that one is dropped and both lists stay as they were. It claims exactly when a Playing player reaches three tokens, makes the same state moves as the step as written, and keeps the player's lists consistent. |
| Players.RunStepBoundedKeepsDescribes | main/java/bguspl/set/ex/Player.java:180-224 | With the bound, a player whose state describes its tokens still does after every step, however stale the press, and holds at most three tokens. |
| Players.RunStepBoundedStaysBounded | main/java/bguspl/set/ex/Player.java:180-224 | With the bound, any player holding at most three tokens still holds at most three after a step, whatever its state, including a player checkSet left PlayingAfterPunishment with fewer than three. |
| Players.AfterVerdict | main/java/bguspl/set/ex/Player.java:208-218 | After waking, Legal gives exactly one point and Playing, Illegal keeps score and state, and NotComplete changes nothing. The verdict is reset in every case. |
| Dealers.RunStepKeepsValid | main/java/bguspl/set/ex/Player.java:180-224 | A player's run-loop step, written into its seat and followed by addPlayerToQueue when it claims, keeps the dealer invariant, so the dealer's operations may run between any two player steps. The bounded step does the same. |
| Dealers.KeyPressedKeepsValid | main/java/bguspl/set/ex/Player.java:307-351 | A press handled by keyPressed against the table's gate and empty-slot list keeps the dealer invariant and the soundness of the claim queue. |
| Dealers.AfterVerdictKeepsValid | main/java/bguspl/set/ex/Player.java:208-218 | The claimant's reaction to its verdict keeps the dealer invariant. Once the dealer has woken it out of Waiting, the claim queue stays sound. |
| Dealers.RunStepKeepsQueueSound | main/java/bguspl/set/ex/Player.java:186-192 | Each player has at most one claim outstanding, so the queue never overflows. If the queue is sound (distinct seats, each of them Waiting), a claiming step finds room and addPlayerToQueue appends the claimant, keeping the queue sound. A step that makes no claim keeps it sound too. Both the step as written and the bounded step do this. |
| Dealers.NewDealer | main/java/bguspl/set/ex/Dealer.java:107-125 | The new dealer's deck holds every card id once, the table is empty, every player is Playing at score 0, nothing is queued (so the claim queue is sound), and both clock fields equal the turn timeout. |
| Dealers.Deal | main/java/bguspl/set/ex/Dealer.java:290-299 | Dealing consumes min(emptySlots, deck) entries from the head of both lists. |
| Dealers.DealSound | main/java/bguspl/set/ex/Dealer.java:290-299 | Dealing keeps the bijection and the exact empty list. The i-th empty slot receives the i-th deck card, other slots are untouched, the rest of the deck stays off the table, and no card is lost or invented. |
| Dealers.PlaceCardsOnTable | main/java/bguspl/set/ex/Dealer.java:287-318 | After placeCardsOnTable the slots or the deck have run out, tableHaveEmptySlots holds exactly when a slot stayed empty, the gate is open, the dealer invariant holds, a sound claim queue stays sound, and the cards on the table plus the deck are the same multiset as before. |
| Dealers.PlaceCardsKeeps | main/java/bguspl/set/ex/Dealer.java:287-318 | Occupied slots keep their cards and the deck loses exactly its dealt head. The queue, the clock and every player apart from slotsToPlace are untouched. |
| Dealers.StrikeEmpty | main/java/bguspl/set/ex/Dealer.java:303-310 | Every player forgets the slots left empty and nothing else: only slotsToPlace changes, and a slot stays in a player's slotsToPlace exactly when it was there and is not empty. Players stay well formed. |
| Dealers.PlaceCardsStrikesEmpty | main/java/bguspl/set/ex/Dealer.java:301-309 | A slot left empty after dealing is in no player's slotsToPlace. |
| Dealers.RemoveCardsFromTable | main/java/bguspl/set/ex/Dealer.java:277-281 | Every listed slot ends empty, unlisted slots keep their cards, off-table cards stay off, and the table invariants are kept. |
| Dealers.RemoveCardsConserves | main/java/bguspl/set/ex/Dealer.java:277-281 | Removing a duplicate-free list of slots takes exactly the cards in them off the table. |
| Dealers.ReturnCards | main/java/bguspl/set/ex/Dealer.java:362-372 | Visiting the slots moves cards to the back of the deck: the old deck is kept as a prefix and every visited slot ends empty. |
| Dealers.ReturnCardsSound | main/java/bguspl/set/ex/Dealer.java:362-372 | Returning cards keeps the deck duplicate-free and off the table, and keeps the multiset of cards in play. |
| Dealers.ResetGame | main/java/bguspl/set/ex/Dealer.java:435-449 | Every player is Playing with no pending verdict and no tokens, keeps its score, and the claim queue is empty. |
| Dealers.RemoveAllCardsFromTable | main/java/bguspl/set/ex/Dealer.java:358-375 | The gate is closed and every slot is empty and listed. The deck grows by exactly countCards, keeps its old prefix, and the cards in play are unchanged. Players are reset as in ResetGame: Playing, no verdict pending, no tokens, with score, press queue and slotsToPlace kept. The queue is empty. |
| Dealers.AddPlayerToQueue | main/java/bguspl/set/ex/Dealer.java:413-415 | With room (capacity: the number of players), the queue grows by one with the id at its tail. When full it is unchanged. Nothing else changes. By Dealers.RunStepKeepsQueueSound a claim never meets a full queue. |
| Dealers.GetSetOfCards | main/java/bguspl/set/ex/Dealer.java:423-433 | The result has three entries. Each occupied selected slot yields the card that maps back to that slot. An empty or missing slot yields 0. |
| Dealers.EmptySlotReadsAsCardZero | main/java/bguspl/set/ex/Dealer.java:423-433 | An empty selected slot reads exactly like the slot holding card 0, so the validity test cannot tell them apart. |
| Dealers.LiftTokens | main/java/bguspl/set/ex/Dealer.java:249-250 | Every player loses its tokens on the set's slots, keeps the others, and keeps its status. |
| Dealers.AcceptSet | main/java/bguspl/set/ex/Dealer.java:242-261 | A legal set's cards and no others leave the game. The gaps are refilled until slots or deck run out, the gate is open, and the clock is set to start_time + 999. |
| Dealers.AcceptSetLiftsTokens | main/java/bguspl/set/ex/Dealer.java:246-258 | After a legal set no player has a token on its slots, the claimant has none at all, and statuses, queue and start time are kept. |
| Dealers.Notify | main/java/bguspl/set/ex/Player.java:530-535 | _notify sets the player's state to the one passed and changes no other field of it, no other player and nothing else of the dealer. |
| Dealers.Mark | main/java/bguspl/set/ex/Player.java:459-461 | setSetState sets the claimant's verdict and changes no other field, no other player and nothing else of the dealer. |
| Dealers.CheckClaim | main/java/bguspl/set/ex/Dealer.java:228-270 | One verdict keeps the dealer invariant, the queue, the start time, every score, and every other player's state and verdict. The claimant is notified with the new running state, which is the old one, Playing or PlayingAfterPunishment. Cards only leave the game, and the clock stands or is reset. |
| Dealers.CheckClaimIgnoresQueue | main/java/bguspl/set/ex/Dealer.java:228-270 | A verdict does not depend on who else is queued: with any other queue behind the claimant the dealer and running state come out the same, queue apart. |
| Dealers.ShortClaim | main/java/bguspl/set/ex/Dealer.java:233-236 | A claim of fewer than three tokens is marked NotComplete and changes no table, deck or clock. The claimant is left with the running state, not Playing. |
| Dealers.LegalClaim | main/java/bguspl/set/ex/Dealer.java:239-261 | A full claim the oracle accepts is marked Legal and leaves the claimant Playing with no token. Every player's tokens on the set are lifted, exactly the set's cards leave the game, the gate is open and the clock is reset. |
| Dealers.IllegalClaim | main/java/bguspl/set/ex/Dealer.java:263-265 | A full claim the oracle rejects is marked Illegal, the claimant keeps its tokens and becomes PlayingAfterPunishment, and the table, deck and clock do not change. |
| Dealers.OverfullClaim | main/java/bguspl/set/ex/Dealer.java:233-270 | A claim of more than three tokens is not judged: verdict, table, deck and clock stay, and the claimant gets the running state. |
| Dealers.Drain | main/java/bguspl/set/ex/Dealer.java:223-272 | The loop empties the queue and every queued claimant is notified out of Waiting; the running state is never Waiting. The invariant and every score are kept, players never queued keep their state and verdict (a legal set may still lift their tokens), cards only leave the game, and the clock stands or is reset. |
| Dealers.DrainInOrder | main/java/bguspl/set/ex/Dealer.java:227-270 | Claims are judged first in, first out: draining q1 + q2 is draining q1 and then draining q2 from the dealer and running state q1 left. |
| Dealers.CheckSet | main/java/bguspl/set/ex/Dealer.java:223-272 | checkSet ends with an empty queue and every queued claimant woken out of Waiting. The invariant and every score are kept, players never queued keep their state (a legal set may still lift their tokens), and no card is added to the game. The claim queue is left empty and so sound. |
| Dealers.StaleStateAfterIllegalClaim | main/java/bguspl/set/ex/Dealer.java:225-270 | After an illegal claim, a following short claim in the same round leaves its player PlayingAfterPunishment, although that player was never punished. |
| Dealers.RunStepOverfillsAfterPenalty | main/java/bguspl/set/ex/Player.java:180-224 | On a valid dealer, a press queued before a claim and handled after checkSet's Illegal verdict and the penalty places a fourth token and leaves the player Playing, which no state describes. |
| Clock.UpdateTimerDisplay | main/java/bguspl/set/ex/Dealer.java:342-353 | Each update lowers the clock by exactly TIMEOUT = 50 and warns exactly when the clock is at or below the warning threshold. |
| Clock.Countdown | main/java/bguspl/set/ex/Dealer.java:177-186 | Without claims, timerLoop stops at or below reshuffleTime = 0 and less than one tick below it, after a whole number of ticks. The warning is raised per tick exactly when due and, once raised, stays raised. |
| Clock.Tick | main/java/bguspl/set/ex/Dealer.java:177-186 | One pass of timerLoop leaves no pending claim and every claimant woken out of Waiting. The clock drops one tick from where it was or from the reset value. The warning is raised exactly when the clock before the drop is at or below the warning threshold. |
| Winners.MaxScore | main/java/bguspl/set/ex/Dealer.java:382-390 | The top score bounds every score and is held by some player. |
| Winners.AnnounceWinners | main/java/bguspl/set/ex/Dealer.java:380-407 | The winners are exactly the players with the top score, without duplicates. The first is the lowest seat holding it, the rest follow in increasing seat order. |

## Left out

- Threads and their protocol are not modelled: `wait`/`notify`/`notifyAll`, the locks, `synchronized`, `terminate`, `interrupt` and `join`. Each thread's step is one atomic transition instead.
- `Thread.sleep` delays and `sleepUntilWokenOrTimeout` are not modelled; they affect only timing. A tick of the clock is one step.
- `env.ui` calls are not modelled: the display, `placeToken`, `removeToken` and `removeTokens` on the table. They touch only the display, and so does the logger.
- The utility class's `testSet`, `findSets` and `cardsToFeatures` are not part of this model. Set validity is the `valid` parameter. `hints`, `hasClue`, `getHint` and `shouldFinish` depend only on them and are left out.
- `Collections.shuffle` and `Random` are left out. Dealing takes `emptySlots` in the order it holds, and removal takes an `order` that covers the grid. The randomly chosen player woken after dealing is a notification only.
- The artificial-intelligence key generator is left out. It is a random source of presses, and `KeyPressed` accepts any press.
- The dealer's outer `run` loop is left out: it shuffles, deals, runs the timer, and collects the cards while `shouldFinish` is false. It sequences the modelled operations and depends on `findSets`. Between rounds it also sets the clock to start_time + 999 (Dealer.java:159); no modelled operation does this between rounds.
- Clock.Countdown: models timerLoop only while no legal set resets the clock. With resets the loop's length depends on when the player threads claim sets, which is a matter of thread scheduling the model does not follow. Clock.Tick states the step with claims.
- Null list entries are not modelled. A pressed slot is an `Option<Slot>`, but `mySet` and `toRemove` are lists of slot numbers with no null. So the null checks on their entries in `removeTokensFromSlots` and `getSetOfCards` have nothing to test.
- `Table.java`'s slot lock and `volatile` markers are left out; they matter only between threads.

## Findings

| source | as written | input that shows it | evidently intended | confidence | as-written member | corrected member |
|---|---|---|---|---|---|---|
| main/java/bguspl/set/ex/Player.java:180-224 | The run loop keeps handling presses queued before the player claimed a set. After an Illegal verdict the player is PlayingAfterPunishment, and a queued press on a slot outside `mySet` is toggled on with no size check, giving a fourth token. The player is then set to Playing. | A table of cards 0..3 on slots 0..3 and an oracle rejecting cards {0, 1, 2}. A Playing player with tokens on slots 0 and 1 presses 2 and then 3. Slot 2 completes the claim and the dealer rejects it. The queued press 3 then gives `mySet` = [0, 1, 2, 3] while the player is Playing. | A player never holds more than three tokens: `keyPressed` refuses a punished full player's press on a foreign slot, and PlayerState documents at most three placed. A press on a new slot should be ignored once three tokens are down. | not executed | Dealers.RunStepOverfillsAfterPenalty | Players.RunStepBoundedStaysBounded |
