/** The winner of a knockout tie as the bracket view decides it: the side
    with more goals, or, when the two scores are strictly equal and both
    penalty-shootout scores are recorded, the side with more penalties. */
module Knockout {
  import opened JsValues
  import opened League

  datatype Winner = NoWinner | WinnerA | WinnerB

  /** The shootout is shown and decides: the scores are strictly equal
      (`===`) and neither penalty score is absent (`null` counts as recorded). */
  predicate ShootoutApplies(g: Game)
  {
    g.scoreA == g.scoreB && !g.penaltiesA.Undefined? && !g.penaltiesB.Undefined?
  }

  /** The winner of the tie: first by the scores with `>`, then overridden by
      the shootout when it applies and one side has more penalties. */
  function KnockoutWinner(g: Game): Winner
  {
    var byScore :=
      if Greater(g.scoreA, g.scoreB) then WinnerA
      else if Greater(g.scoreB, g.scoreA) then WinnerB
      else NoWinner;
    if ShootoutApplies(g) then
      if Greater(g.penaltiesA, g.penaltiesB) then WinnerA
      else if Greater(g.penaltiesB, g.penaltiesA) then WinnerB
      else byScore
    else byScore
  }

  /** The tie seen from the other side: teams, scores, cards and penalties
      swapped. */
  function Swap(g: Game): Game
  {
    Game(g.teamB, g.teamA, g.scoreB, g.scoreA, g.yellowB, g.redB, g.yellowA, g.redA, g.penaltiesB, g.penaltiesA)
  }

  function Flip(w: Winner): Winner
  {
    match w
    case NoWinner => NoWinner
    case WinnerA => WinnerB
    case WinnerB => WinnerA
  }

  /** The rule on played ties (both scores numbers): a side wins when it
      scored more goals, or when the goals are level, both shootout scores
      are recorded and it converted more penalties; otherwise nobody wins. */
  lemma WinnerOfPlayedTie(g: Game)
    requires g.scoreA.Num? && g.scoreB.Num?
    ensures var a, b := g.scoreA.n, g.scoreB.n;
      && (KnockoutWinner(g) == WinnerA <==>
            a > b || (a == b && ShootoutApplies(g) && ToNumber(g.penaltiesA) > ToNumber(g.penaltiesB)))
      && (KnockoutWinner(g) == WinnerB <==>
            b > a || (a == b && ShootoutApplies(g) && ToNumber(g.penaltiesB) > ToNumber(g.penaltiesA)))
      && (KnockoutWinner(g) == NoWinner <==>
            a == b && (!ShootoutApplies(g) || ToNumber(g.penaltiesA) == ToNumber(g.penaltiesB)))
  {
  }

  /** No side is favoured: swapping the sides swaps the winner. */
  lemma WinnerSymmetric(g: Game)
    ensures KnockoutWinner(Swap(g)) == Flip(KnockoutWinner(g))
  {
    GreaterTrichotomy(g.scoreA, g.scoreB);
    GreaterTrichotomy(g.penaltiesA, g.penaltiesB);
  }

  /** The shootout never overturns the goals: whenever one side scored more,
      it wins. */
  lemma GoalsDecideFirst(g: Game)
    requires Greater(g.scoreA, g.scoreB)
    ensures KnockoutWinner(g) == WinnerA
  {
    GreaterTrichotomy(g.scoreA, g.scoreB);
  }

  /** Ties whose records are incomplete. A score that is absent compares as
      NaN, so with only one score recorded nobody wins; with both absent the
      scores are strictly equal and the shootout alone decides. A `null`
      score counts as 0 with `>` but is not strictly equal to 0. */
  lemma IncompleteTies(g: Game)
    ensures g.scoreA.Undefined? != g.scoreB.Undefined? ==> KnockoutWinner(g) == NoWinner
    ensures g.scoreA.Undefined? && g.scoreB.Undefined? && g.penaltiesA.Undefined? ==> KnockoutWinner(g) == NoWinner
    ensures (g.scoreA.Undefined? && g.scoreB.Undefined? && g.penaltiesA.Num? && g.penaltiesB.Num?
             && g.penaltiesA.n > g.penaltiesB.n) ==> KnockoutWinner(g) == WinnerA
    ensures g.scoreA.Null? && g.scoreB == Num(0) ==> KnockoutWinner(g) == NoWinner
    ensures g.scoreA.Null? && g.scoreB.Num? && g.scoreB.n < 0 ==> KnockoutWinner(g) == WinnerA
  {
  }
}
