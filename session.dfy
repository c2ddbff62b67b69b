/**
 * The session counters of GameManager: score, remaining moves, the game-over
 * flag and the high score. The high score is read from storage once at start;
 * storage writes and all UI updates are outside this model.
 */
module Session {

  /** The move counter after DecreaseMoves: one less, never below zero, unchanged once the game is over. */
  function MovesAfterTurn(moves: int, over: bool): int
  {
    if over then moves else if moves - 1 < 0 then 0 else moves - 1
  }

  class GameManager {
    /** Moves granted at the start of a game (an inspector setting). */
    const initialMoves: int
    var currentScore: int
    var currentMoves: int
    var isGameOver: bool
    var highScore: int

    /**
     * The state the methods keep: once the game is over the high score
     * already accounts for the final score, and with a non-negative
     * allowance the move counter never goes below zero.
     */
    ghost predicate Valid()
      reads this
    {
      && (isGameOver ==> currentScore <= highScore)
      && (initialMoves >= 0 ==> currentMoves >= 0)
    }

    /** Start(): the stored high score is loaded, then InitializeGame runs. */
    constructor (initialMoves: int, storedHighScore: int)
      ensures this.initialMoves == initialMoves && highScore == storedHighScore
      ensures currentScore == 0 && currentMoves == initialMoves && !isGameOver
      ensures Valid()
    {
      this.initialMoves := initialMoves;
      highScore := storedHighScore;
      currentScore := 0;
      currentMoves := initialMoves;
      isGameOver := false;
    }

    /** A fresh game: no score, the full move allowance, not over. */
    method InitializeGame()
      modifies this
      ensures currentScore == 0 && currentMoves == initialMoves && !isGameOver
      ensures highScore == old(highScore)
      ensures Valid()
    {
      currentScore := 0;
      currentMoves := initialMoves;
      isGameOver := false;
    }

    /** Adds `amount` to the score unless the game is over. */
    method AddScore(amount: int)
      requires Valid()
      modifies this
      ensures old(isGameOver) ==> currentScore == old(currentScore)
      ensures !old(isGameOver) ==> currentScore == old(currentScore) + amount
      ensures currentMoves == old(currentMoves) && isGameOver == old(isGameOver)
      ensures highScore == old(highScore)
      ensures Valid()
    {
      if isGameOver {
        return;
      }
      currentScore := currentScore + amount;
    }

    /** Spends one move, never going below zero; nothing happens once the game is over. */
    method DecreaseMoves()
      requires Valid()
      modifies this
      ensures old(isGameOver) ==> currentMoves == old(currentMoves)
      ensures !old(isGameOver) && old(currentMoves) >= 1 ==> currentMoves == old(currentMoves) - 1
      ensures !old(isGameOver) && old(currentMoves) < 1 ==> currentMoves == 0
      ensures currentScore == old(currentScore) && isGameOver == old(isGameOver)
      ensures highScore == old(highScore)
      ensures Valid()
    {
      if isGameOver {
        return;
      }
      currentMoves := currentMoves - 1;
      if currentMoves < 0 {
        currentMoves := 0;
      }
    }

    /** Ends the game once; the high score becomes the larger of itself and the score. */
    method GameOver()
      requires Valid()
      modifies this
      ensures isGameOver
      ensures old(isGameOver) ==> highScore == old(highScore)
      ensures !old(isGameOver) ==>
        highScore == if old(currentScore) > old(highScore) then old(currentScore) else old(highScore)
      ensures currentScore == old(currentScore) && currentMoves == old(currentMoves)
      ensures Valid()
    {
      if isGameOver {
        return;
      }
      isGameOver := true;
      if currentScore > highScore {
        highScore := currentScore;
      }
    }

    /** The end-of-turn check: the game ends exactly when no moves remain. */
    method CheckForGameOver()
      requires Valid()
      modifies this
      ensures isGameOver == (old(isGameOver) || old(currentMoves) <= 0)
      ensures old(currentMoves) <= 0 && !old(isGameOver) ==>
        highScore == if old(currentScore) > old(highScore) then old(currentScore) else old(highScore)
      ensures (old(currentMoves) > 0 || old(isGameOver)) ==> highScore == old(highScore)
      ensures currentScore == old(currentScore) && currentMoves == old(currentMoves)
      ensures Valid()
    {
      if currentMoves <= 0 {
        GameOver();
      }
    }

    /**
     * Reports that no move is left. The shuffle it starts on the board is
     * returned as a request, because the board is the caller here.
     */
    method NoMoreMoves() returns (shuffleRequested: bool)
      ensures shuffleRequested <==> !isGameOver
    {
      shuffleRequested := !isGameOver;
    }

    method IsGameOver() returns (over: bool)
      ensures over == isGameOver
    {
      over := isGameOver;
    }
  }

  /** A second GameOver leaves every counter as the first one left it. */
  method GameOverTwice(gm: GameManager)
    requires gm.Valid()
    modifies gm
    ensures gm.isGameOver
    ensures gm.highScore == if old(gm.isGameOver) || old(gm.currentScore) <= old(gm.highScore)
                            then old(gm.highScore) else old(gm.currentScore)
    ensures gm.currentScore == old(gm.currentScore) && gm.currentMoves == old(gm.currentMoves)
  {
    gm.GameOver();
    ghost var afterFirst := gm.highScore;
    gm.GameOver();
    assert gm.highScore == afterFirst;
  }
}
