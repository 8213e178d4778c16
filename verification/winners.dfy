/**
 * announceWinners (Dealer.java): the players holding the top score, the
 * first of them found by a scan for a strictly larger score, the rest in
 * seating order.
 */
module Winners {
  import opened Lists
  import Players

  /** The highest score at the table. */
  function MaxScore(players: seq<Players.Player>): (m: nat)
    requires |players| > 0
    ensures forall j :: 0 <= j < |players| ==> players[j].score <= m
    ensures exists j :: 0 <= j < |players| && players[j].score == m
  {
    if |players| == 1 then players[0].score
    else
      var rest := MaxScore(players[..|players| - 1]);
      var last := players[|players| - 1].score;
      if last > rest then last else rest
  }

  /**
   * announceWinners: the winners are exactly the players with the top score,
   * each listed once; the first is the lowest seat holding it and the others
   * follow in increasing seat order.
   */
  method AnnounceWinners(players: seq<Players.Player>) returns (winners: seq<nat>)
    requires |players| > 0
    requires forall j :: 0 <= j < |players| ==> players[j].id == j
    ensures |winners| > 0
    ensures forall w: nat :: w in winners <==> w < |players| && players[w].score == MaxScore(players)
    ensures Distinct(winners)
    ensures winners[0] < |players|
    ensures forall j :: 0 <= j < winners[0] ==> players[j].score < MaxScore(players)
    ensures forall a, b :: 1 <= a < b < |winners| ==> winners[a] < winners[b]
  {
    var maxId: nat := 0;
    var maxScore := players[0].score;
    var j := 1;
    while j < |players|
      invariant 1 <= j <= |players|
      invariant maxId < j && players[maxId].score == maxScore
      invariant forall k :: 0 <= k < j ==> players[k].score <= maxScore
      invariant forall k :: 0 <= k < maxId ==> players[k].score < maxScore
    {
      if players[j].score > maxScore {
        maxId := j;
        maxScore := players[j].score;
      }
      j := j + 1;
    }
    winners := [maxId];
    var k := 0;
    while k < |players|
      invariant 0 <= k <= |players|
      invariant |winners| >= 1 && winners[0] == maxId
      invariant forall w: nat :: w in winners <==> w == maxId || (w < k && players[w].score == maxScore)
      invariant forall a :: 1 <= a < |winners| ==> winners[a] < k && winners[a] != maxId
      invariant forall a, b :: 1 <= a < b < |winners| ==> winners[a] < winners[b]
    {
      if players[k].score == maxScore && players[k].id != maxId {
        winners := winners + [players[k].id];
      }
      k := k + 1;
    }
  }
}
