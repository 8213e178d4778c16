/**
 * The dealer's countdown (Dealer.java: TIMEOUT, timerLoop, updateTimerDisplay).
 * The sleep between ticks and the display itself are left out: a tick is one
 * step of the clock.
 */
module Clock {
  import Tables
  import States
  import opened Dealers

  /** reshuffleTime: the round ends once the clock is no longer above it. */
  const ReshuffleTime: int := 0

  /**
   * updateTimerDisplay: the clock drops by one tick whichever branch runs;
   * the display is told to warn exactly when the clock, before the drop, is
   * within the warning threshold.
   */
  function UpdateTimerDisplay(currTime: int, warningMillis: int): (r: (int, bool))
    ensures r.0 < currTime && currTime - r.0 == Timeout
    ensures r.1 <==> currTime <= warningMillis
  {
    if currTime <= warningMillis then (currTime - Timeout, true)
    else (currTime - Timeout, false)
  }

  /**
   * timerLoop with nobody claiming a set: ticks until the clock is no longer
   * above reshuffleTime. It stops within one tick of it, and the warning, once
   * raised, stays raised.
   */
  method Countdown(currTime: int, warningMillis: int) returns (finalTime: int, ticks: nat, warned: seq<bool>)
    ensures finalTime <= ReshuffleTime
    ensures currTime > ReshuffleTime ==> finalTime > ReshuffleTime - Timeout
    ensures currTime <= ReshuffleTime ==> finalTime == currTime && ticks == 0
    ensures finalTime == currTime - Timeout * ticks
    ensures |warned| == ticks
    ensures forall k :: 0 <= k < ticks ==> (warned[k] <==> currTime - Timeout * k <= warningMillis)
    ensures forall k, l :: 0 <= k <= l < ticks && warned[k] ==> warned[l]
  {
    finalTime := currTime;
    ticks := 0;
    warned := [];
    while finalTime > ReshuffleTime
      invariant finalTime == currTime - Timeout * ticks
      invariant currTime > ReshuffleTime ==> finalTime > ReshuffleTime - Timeout
      invariant currTime <= ReshuffleTime ==> ticks == 0
      invariant |warned| == ticks
      invariant forall k :: 0 <= k < ticks ==> (warned[k] <==> currTime - Timeout * k <= warningMillis)
      decreases finalTime
    {
      var step := UpdateTimerDisplay(finalTime, warningMillis);
      warned := warned + [step.1];
      finalTime := step.0;
      ticks := ticks + 1;
    }
  }

  /**
   * One pass of timerLoop's body: pending claims are judged, then the clock
   * ticks. Afterwards no claim is pending, and the clock has dropped by one
   * tick from where it was or from the reset value a legal set put there.
   */
  function Tick(d: Dealer, valid: seq<Tables.Card> -> bool, warningMillis: int): (r: (Dealer, bool))
    requires Dealers.Valid(d)
    ensures Dealers.Valid(r.0) && r.0.queue == []
    ensures r.0.currTime == d.currTime - Timeout || r.0.currTime == d.startTime + ResetBonus - Timeout
    ensures |d.queue| == 0 ==> r.0 == d.(currTime := d.currTime - Timeout)
    ensures r.0.startTime == d.startTime && |r.0.players| == |d.players|
    ensures forall i :: 0 <= i < |d.queue| ==> r.0.players[d.queue[i]].state != States.Waiting
    ensures forall j :: 0 <= j < |r.0.players| && j < |d.players| ==> r.0.players[j].score == d.players[j].score
    ensures r.1 <==> r.0.currTime + Timeout <= warningMillis
    ensures Dealers.QueueSound(r.0)
  {
    var checked := if |d.queue| == 0 then d else CheckSet(d, valid);
    var step := UpdateTimerDisplay(checked.currTime, warningMillis);
    (checked.(currTime := step.0), step.1)
  }
}
