/** Rock-paper-scissors scoring (EX/EX05/game.c) with the three counters
    of EX/EX05/summary.c. */
module RockPaperScissors {

  datatype Outcome = Tie | AWins | BWins | Invalid

  /** The winning throws, written as the game's rule rather than as the
      source's switch: rock breaks scissors, paper covers rock, scissors
      cut paper. */
  predicate Beats(x: char, y: char)
  {
    (x, y) in {('r', 's'), ('p', 'r'), ('s', 'p')}
  }

  /** The decision decideGame takes (game.c:28-77): equal letters tie
      before any letter is checked; otherwise a switch on A's letter and
      then on B's, anything unmatched being invalid. */
  function Decide(alet: char, blet: char): (o: Outcome)
    ensures o == Tie <==> alet == blet
    ensures o == AWins <==> alet != blet && Beats(alet, blet)
    ensures o == BWins <==> alet != blet && Beats(blet, alet)
  {
    if alet == blet then Tie
    else match alet
      case 'r' => if blet == 'p' then BWins else if blet == 's' then AWins else Invalid
      case 'p' => if blet == 's' then BWins else if blet == 'r' then AWins else Invalid
      case 's' => if blet == 'r' then BWins else if blet == 'p' then AWins else Invalid
      case _ => Invalid
  }

  /** Any pair of distinct letters other than the six winning ones is
      invalid, including every pair with a letter outside r, p, s. */
  lemma InvalidPairs(alet: char, blet: char)
    ensures Decide(alet, blet) == Invalid <==>
            alet != blet && !(alet in "rps" && blet in "rps")
  {
  }

  /** Swapping the players' letters swaps the winner. */
  lemma SwapSwapsWinner(alet: char, blet: char)
    ensures Decide(alet, blet) == AWins <==> Decide(blet, alet) == BWins
    ensures Decide(alet, blet) == Tie <==> Decide(blet, alet) == Tie
    ensures Decide(alet, blet) == Invalid <==> Decide(blet, alet) == Invalid
  {
  }

  /** The three global counters. */
  class Summary {
    var aWinTotal: nat
    var bWinTotal: nat
    var tieTotal: nat

    function Total(): nat
      reads this
    {
      aWinTotal + bWinTotal + tieTotal
    }

    constructor ()
      ensures aWinTotal == 0 && bWinTotal == 0 && tieTotal == 0
    {
      aWinTotal, bWinTotal, tieTotal := 0, 0, 0;
    }

    /** decideGame: count one game.  `exited` is the call of invalid(),
        which ends the program before any counter changes. */
    method DecideGame(alet: char, blet: char) returns (exited: bool)
      modifies this
      ensures exited <==> Decide(alet, blet) == Invalid
      ensures exited ==> aWinTotal == old(aWinTotal) && bWinTotal == old(bWinTotal) && tieTotal == old(tieTotal)
      ensures !exited ==> Total() == old(Total()) + 1
      ensures tieTotal == old(tieTotal) + (if alet == blet then 1 else 0)
      ensures aWinTotal == old(aWinTotal) + (if alet != blet && Beats(alet, blet) then 1 else 0)
      ensures bWinTotal == old(bWinTotal) + (if alet != blet && Beats(blet, alet) then 1 else 0)
    {
      exited := false;
      match Decide(alet, blet)
      case Tie => tieTotal := tieTotal + 1;
      case AWins => aWinTotal := aWinTotal + 1;
      case BWins => bWinTotal := bWinTotal + 1;
      case Invalid => exited := true;
    }
  }
}
