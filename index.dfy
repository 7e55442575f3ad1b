/** The game component: six session variables updated in place by four
  * click handlers, the interval timer's per-second callback and the
  * resolution an answer click schedules. */
module Index {
  import opened Catalog
  import opened GameSession
  import Properties

  class Game {
    var currentLevel: int
    var timeLeft: int
    var score: int
    var gameState: GameState
    var selectedAnswer: Option<int>
    var showFeedback: bool
    /** The answer resolution waiting on its one-second delay, if any. */
    var pending: Option<Deferred>

    /** The session these fields hold. */
    function Snapshot(): Session
      reads this
    {
      Session(currentLevel, timeLeft, score, gameState, selectedAnswer, showFeedback, pending)
    }

    predicate Valid()
      reads this
    {
      GameSession.Valid(Snapshot())
    }

    /** First render: menu screen, first riddle, full clock, no feedback. */
    constructor ()
      ensures Valid()
      ensures Snapshot() == Initial()
      ensures gameState == Menu && currentLevel == 0 && score == 0
      ensures timeLeft == Riddles[0].timeLimit
      ensures selectedAnswer == None && !showFeedback && pending == None
    {
      currentLevel := 0;
      timeLeft := Riddles[0].timeLimit;
      score := 0;
      gameState := Menu;
      selectedAnswer := None;
      showFeedback := false;
      pending := None;
      Properties.InitialValid();
    }

    /** The start button, shown on the menu screen. */
    method StartGame()
      requires Valid() && gameState == Menu
      modifies this
      ensures Valid()
      ensures Snapshot() == Step(old(Snapshot()), Start)
      ensures currentLevel == 0 && score == 0 && gameState == Playing
      ensures timeLeft == Riddles[0].timeLimit && timeLeft > 0
      ensures selectedAnswer == old(selectedAnswer) && showFeedback == old(showFeedback)
      ensures pending == old(pending)
    {
      Properties.StepValid(Snapshot(), Start);
      currentLevel := 0;
      score := 0;
      timeLeft := TimeLimit(0);
      gameState := Playing;
    }

    /** The effect of the clock running out: the game-over screen. */
    method HandleTimeOut()
      requires Valid()
      modifies this
      ensures Valid()
      ensures gameState == GameOver
      ensures Snapshot() == old(Snapshot()).(gameState := GameOver)
    {
      gameState := GameOver;
    }

    /** One second of the interval timer, which runs only while the question
      * screen is up with time left. Above one second the clock drops by one
      * and nothing else moves; at one second it runs out. */
    method Tick()
      requires Valid() && gameState == Playing && timeLeft > 0
      modifies this
      ensures Valid()
      ensures Snapshot() == Step(old(Snapshot()), GameSession.Tick)
      ensures timeLeft >= 0
      ensures old(timeLeft) > 1 ==>
                timeLeft == old(timeLeft) - 1 && Snapshot() == old(Snapshot()).(timeLeft := timeLeft)
      ensures old(timeLeft) <= 1 ==>
                timeLeft == 0 && gameState == GameOver
                && Snapshot() == old(Snapshot()).(timeLeft := 0, gameState := GameOver)
    {
      Properties.StepValid(Snapshot(), GameSession.Tick);
      var prev := timeLeft;
      if prev <= 1 {
        HandleTimeOut();
        timeLeft := 0;
      } else {
        timeLeft := prev - 1;
      }
    }

    /** A click on option `answerIndex` of the riddle on screen. Ignored
      * while feedback is shown; otherwise it highlights the option and
      * schedules the resolution with the verdict, the level and the clock
      * of this moment. Score, screen, level and clock are untouched. */
    method SubmitAnswer(answerIndex: int)
      requires Valid() && gameState == Playing
      requires 0 <= answerIndex < |Riddles[currentLevel].options|
      modifies this
      ensures Valid()
      ensures Snapshot() == Step(old(Snapshot()), Submit(answerIndex))
      ensures old(showFeedback) ==> Snapshot() == old(Snapshot())
      ensures !old(showFeedback) ==>
                selectedAnswer == Some(answerIndex) && showFeedback
                && pending == Some(Deferred(answerIndex == Riddles[currentLevel].correctAnswer,
                                            currentLevel, timeLeft))
      ensures score == old(score) && gameState == old(gameState)
      ensures currentLevel == old(currentLevel) && timeLeft == old(timeLeft)
    {
      Properties.StepValid(Snapshot(), Submit(answerIndex));
      if showFeedback {
        return;
      }
      selectedAnswer := Some(answerIndex);
      showFeedback := true;
      var isCorrect := answerIndex == Riddles[currentLevel].correctAnswer;
      pending := Some(Deferred(isCorrect, currentLevel, timeLeft));
    }

    /** The scheduled resolution, one second after the click. A right answer
      * earns 100 plus ten points per second left at the click and leads to
      * the continue screen, or to the victory screen after the last riddle;
      * a wrong one leads to the game-over screen, whatever the screen is now.
      * Either way the feedback is cleared. */
    method ResolveAnswer()
      requires Valid() && pending.Some?
      modifies this
      ensures Valid()
      ensures Snapshot() == Step(old(Snapshot()), Resolve)
      ensures var d := old(pending.value);
              && (d.isCorrect ==>
                    score == old(score) + 100 + 10 * d.timeLeft
                    && gameState == (if d.level < |Riddles| - 1 then LevelComplete else Victory))
              && (!d.isCorrect ==> score == old(score) && gameState == GameOver)
      ensures !showFeedback && selectedAnswer == None && pending == None
      ensures currentLevel == old(currentLevel) && timeLeft == old(timeLeft)
    {
      Properties.StepValid(Snapshot(), Resolve);
      var d := pending.value;
      if d.isCorrect {
        var timeBonus := d.timeLeft * 10;
        score := score + 100 + timeBonus;
        if d.level < |Riddles| - 1 {
          gameState := LevelComplete;
        } else {
          gameState := Victory;
        }
      } else {
        gameState := GameOver;
      }
      showFeedback := false;
      selectedAnswer := None;
      pending := None;
    }

    /** The continue button, shown on the level-complete screen: the next
      * riddle, which always exists, with its own full clock. */
    method NextLevel()
      requires Valid() && gameState == LevelComplete
      modifies this
      ensures Valid()
      ensures Snapshot() == Step(old(Snapshot()), Next)
      ensures currentLevel == old(currentLevel) + 1 && currentLevel < |Riddles|
      ensures timeLeft == Riddles[currentLevel].timeLimit && timeLeft > 0
      ensures gameState == Playing && score == old(score)
      ensures selectedAnswer == old(selectedAnswer) && showFeedback == old(showFeedback)
      ensures pending == old(pending)
    {
      Properties.StepValid(Snapshot(), Next);
      var newLevel := currentLevel + 1;
      currentLevel := newLevel;
      timeLeft := TimeLimit(newLevel);
      gameState := Playing;
    }

    /** The play-again button, shown on the victory and game-over screens:
      * back to the menu with the first riddle, zero score and a full clock. */
    method RestartGame()
      requires Valid() && (gameState == GameOver || gameState == Victory)
      modifies this
      ensures Valid()
      ensures Snapshot() == Step(old(Snapshot()), Restart)
      ensures currentLevel == 0 && score == 0 && gameState == Menu
      ensures timeLeft == Riddles[0].timeLimit
      ensures selectedAnswer == old(selectedAnswer) && showFeedback == old(showFeedback)
      ensures pending == old(pending)
    {
      Properties.StepValid(Snapshot(), Restart);
      currentLevel := 0;
      score := 0;
      timeLeft := Riddles[0].timeLimit;
      gameState := Menu;
    }
  }
}
