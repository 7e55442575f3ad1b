/** The six variables of one game session, the answer resolution the answer
  * handler schedules, and what each handler and the per-second tick do to
  * them, as functions on values. */
module GameSession {
  import opened Catalog

  datatype Option<T> = None | Some(value: T)

  /** Which screen the game shows. */
  datatype GameState = Menu | Playing | LevelComplete | GameOver | Victory

  /** The resolution scheduled one second after an answer click. It closes
    * over the verdict and over the level and the clock as they were at the
    * click, so ticks or resets in between do not change what it awards. */
  datatype Deferred = Deferred(isCorrect: bool, level: int, timeLeft: int)

  datatype Session = Session(
    currentLevel: int,
    timeLeft: int,
    score: int,
    gameState: GameState,
    selectedAnswer: Option<int>,
    showFeedback: bool,
    pending: Option<Deferred>)

  /** The inputs that change a session: the four click handlers, the
    * per-second timer callback and the scheduled answer resolution. */
  datatype Event =
    | Start
    | Tick
    | Submit(answerIndex: int)
    | Resolve
    | Next
    | Restart

  /** The session before any click: menu screen, first riddle's clock. */
  function Initial(): Session
  {
    Session(0, Riddles[0].timeLimit, 0, Menu, None, false, None)
  }

  /** What holds of every session the game can reach. */
  predicate Valid(s: Session)
  {
    && 0 <= s.currentLevel < |Riddles|
    && 0 <= s.timeLeft <= Riddles[s.currentLevel].timeLimit
    && s.score >= 0
    // while the question screen is shown the countdown is still running
    && (s.gameState == Playing ==> s.timeLeft > 0)
    // the continue button can always move to an existing riddle
    && (s.gameState == LevelComplete ==> s.currentLevel < |Riddles| - 1)
    // feedback is shown exactly while a resolution is scheduled
    && (s.showFeedback <==> s.pending.Some?)
    && (s.selectedAnswer.Some? <==> s.showFeedback)
    && (s.pending.Some? ==> PendingValid(s))
  }

  predicate PendingValid(s: Session)
    requires s.pending.Some?
  {
    var d := s.pending.value;
    && s.gameState != LevelComplete && s.gameState != Victory
    && 0 <= s.currentLevel <= d.level < |Riddles|
    && 0 <= d.timeLeft <= Riddles[d.level].timeLimit
    && s.selectedAnswer.Some?
    && 0 <= s.selectedAnswer.value < |Riddles[d.level].options|
    && d.isCorrect == (s.selectedAnswer.value == Riddles[d.level].correctAnswer)
  }

  /** When an event can happen at all. A click handler can only be called
    * through a button, and each button is rendered on one screen only; the
    * timer exists only while the question screen is up with time left; the
    * resolution fires only when one was scheduled. */
  predicate Enabled(s: Session, e: Event)
  {
    match e
    case Start => s.gameState == Menu
    case Tick => s.gameState == Playing && s.timeLeft > 0
    case Submit(i) =>
      s.gameState == Playing && 0 <= s.currentLevel < |Riddles|
      && 0 <= i < |Riddles[s.currentLevel].options|
    case Resolve => s.pending.Some?
    case Next => s.gameState == LevelComplete && 0 <= s.currentLevel < |Riddles| - 1
    case Restart => s.gameState == GameOver || s.gameState == Victory
  }

  /** Start: first riddle, zero score, full clock, question screen. */
  function StartGame(s: Session): Session
  {
    s.(currentLevel := 0, score := 0, timeLeft := Riddles[0].timeLimit, gameState := Playing)
  }

  /** One second elapses: the clock drops by one, and a clock at one second
    * or less runs out instead, ending the game. */
  function TickOnce(s: Session): Session
  {
    if s.timeLeft <= 1 then s.(timeLeft := 0, gameState := GameOver)
    else s.(timeLeft := s.timeLeft - 1)
  }

  /** An answer click: ignored while feedback is shown; otherwise highlights
    * the option and schedules its resolution. */
  function SubmitAnswer(s: Session, answerIndex: int): Session
    requires 0 <= s.currentLevel < |Riddles|
  {
    if s.showFeedback then s
    else
      var isCorrect := answerIndex == Riddles[s.currentLevel].correctAnswer;
      s.(selectedAnswer := Some(answerIndex), showFeedback := true,
         pending := Some(Deferred(isCorrect, s.currentLevel, s.timeLeft)))
  }

  /** The scheduled resolution: award points and move on for a right
    * answer, end the game for a wrong one, and clear the feedback. */
  function ResolveAnswer(s: Session): Session
    requires s.pending.Some?
  {
    var d := s.pending.value;
    var s' := s.(showFeedback := false, selectedAnswer := None, pending := None);
    if d.isCorrect then
      s'.(score := s.score + AnswerPoints(d.timeLeft),
          gameState := if d.level < |Riddles| - 1 then LevelComplete else Victory)
    else
      s'.(gameState := GameOver)
  }

  /** Continue to the following riddle with its own full clock. */
  function NextLevel(s: Session): Session
    requires 0 <= s.currentLevel < |Riddles| - 1
  {
    var newLevel := s.currentLevel + 1;
    s.(currentLevel := newLevel, timeLeft := Riddles[newLevel].timeLimit, gameState := Playing)
  }

  /** Back to the menu with the first riddle, zero score and a full clock. */
  function RestartGame(s: Session): Session
  {
    s.(currentLevel := 0, score := 0, timeLeft := Riddles[0].timeLimit, gameState := Menu)
  }

  function Step(s: Session, e: Event): Session
    requires Enabled(s, e)
  {
    match e
    case Start => StartGame(s)
    case Tick => TickOnce(s)
    case Submit(i) => SubmitAnswer(s, i)
    case Resolve => ResolveAnswer(s)
    case Next => NextLevel(s)
    case Restart => RestartGame(s)
  }
}
