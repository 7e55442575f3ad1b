/** What the handlers guarantee over whole sequences of clicks, ticks and
  * scheduled resolutions. */
module Properties {
  import opened Catalog
  import opened GameSession

  /** `evs` can happen one after the other starting from `s`. */
  predicate Allowed(s: Session, evs: seq<Event>)
    decreases |evs|
  {
    evs == [] || (Enabled(s, evs[0]) && Allowed(Step(s, evs[0]), evs[1..]))
  }

  /** The session after `evs`. */
  function Run(s: Session, evs: seq<Event>): Session
    requires Allowed(s, evs)
    decreases |evs|
  {
    if evs == [] then s else Run(Step(s, evs[0]), evs[1..])
  }

  /** `n` seconds of the interval timer. */
  function Ticks(n: nat): seq<Event>
  {
    if n == 0 then [] else [Tick] + Ticks(n - 1)
  }

  predicate Resets(e: Event)
  {
    e == Start || e == Restart
  }

  lemma InitialValid()
    ensures Valid(Initial())
    ensures Initial().gameState == Menu && Initial().score == 0
  {
    CatalogWellFormed();
  }

  /** Every handler, the tick and the resolution keep the session invariant:
    * the level stays a catalog index, the clock stays between zero and the
    * riddle's limit, the score stays non-negative, and the continue screen
    * is only ever shown below the last riddle. */
  lemma StepValid(s: Session, e: Event)
    requires Valid(s) && Enabled(s, e)
    ensures Valid(Step(s, e))
  {
    CatalogWellFormed();
    if e.Resolve? {
      var d := s.pending.value;
      assert s.currentLevel <= d.level;
    }
  }

  lemma {:induction false} RunValid(s: Session, evs: seq<Event>)
    requires Valid(s) && Allowed(s, evs)
    ensures Valid(Run(s, evs))
    decreases |evs|
  {
    if evs != [] {
      StepValid(s, evs[0]);
      RunValid(Step(s, evs[0]), evs[1..]);
    }
  }

  /** Every session reachable from the first render satisfies the invariant;
    * in particular the clock is never negative and the level is in range. */
  lemma ReachableValid(evs: seq<Event>)
    requires Allowed(Initial(), evs)
    ensures Valid(Run(Initial(), evs))
    ensures 0 <= Run(Initial(), evs).timeLeft
    ensures 0 <= Run(Initial(), evs).currentLevel < |Riddles|
  {
    InitialValid();
    RunValid(Initial(), evs);
  }

  /** Running two sequences back to back is running their concatenation. */
  lemma {:induction false} RunAppend(s: Session, a: seq<Event>, b: seq<Event>)
    requires Allowed(s, a) && Allowed(Run(s, a), b)
    ensures Allowed(s, a + b)
    ensures Run(s, a + b) == Run(Run(s, a), b)
    decreases |a|
  {
    if a != [] {
      assert (a + b)[0] == a[0];
      assert (a + b)[1..] == a[1..] + b;
      var t := Step(s, a[0]);
      assert Run(s, a) == Run(t, a[1..]);
      RunAppend(t, a[1..], b);
      assert Allowed(s, a + b);
      assert Run(s, a + b) == Run(t, a[1..] + b);
    } else {
      assert a + b == b;
    }
  }

  /** No event other than start and restart lowers the score; only the
    * resolution of a right answer raises it, by exactly the points for the
    * clock captured at the click. */
  lemma StepScore(s: Session, e: Event)
    requires Valid(s) && Enabled(s, e) && !Resets(e)
    ensures Step(s, e).score >= s.score
    ensures Step(s, e).score != s.score ==>
              e == Resolve && s.pending.value.isCorrect
              && Step(s, e).score == s.score + AnswerPoints(s.pending.value.timeLeft)
  {
  }

  /** Within a play-through (no start, no restart) the score never
    * decreases. */
  lemma {:induction false} ScoreNeverDecreases(s: Session, evs: seq<Event>)
    requires Valid(s) && Allowed(s, evs)
    requires forall i :: 0 <= i < |evs| ==> !Resets(evs[i])
    ensures Run(s, evs).score >= s.score
    decreases |evs|
  {
    if evs != [] {
      assert !Resets(evs[0]);
      StepScore(s, evs[0]);
      StepValid(s, evs[0]);
      forall i | 0 <= i < |evs[1..]| ensures !Resets(evs[1..][i]) {
        assert evs[1..][i] == evs[i + 1];
      }
      ScoreNeverDecreases(Step(s, evs[0]), evs[1..]);
    }
  }

  /** While the question screen is up, `k` seconds fewer than the clock only
    * count it down by `k`, touching nothing else. */
  lemma {:induction false} CountdownRuns(s: Session, k: nat)
    requires Valid(s) && s.gameState == Playing && k < s.timeLeft
    ensures Allowed(s, Ticks(k))
    ensures Run(s, Ticks(k)) == s.(timeLeft := s.timeLeft - k)
    decreases k
  {
    if k > 0 {
      var t := Step(s, Tick);
      assert t == s.(timeLeft := s.timeLeft - 1);
      StepValid(s, Tick);
      CountdownRuns(t, k - 1);
      assert Ticks(k)[0] == Tick && Ticks(k)[1..] == Ticks(k - 1);
    }
  }

  /** Letting the whole clock run out ends the game exactly once: every
    * earlier second keeps the question screen, the last one sets the clock
    * to zero and shows the game-over screen, and no further tick is
    * possible. Nothing else in the session changes. */
  lemma TimesOutOnce(s: Session)
    requires Valid(s) && s.gameState == Playing
    ensures forall k: nat :: k < s.timeLeft ==>
              Allowed(s, Ticks(k)) && Run(s, Ticks(k)).gameState == Playing
    ensures Allowed(s, Ticks(s.timeLeft))
    ensures Run(s, Ticks(s.timeLeft)) == s.(timeLeft := 0, gameState := GameOver)
    ensures !Enabled(Run(s, Ticks(s.timeLeft)), Tick)
  {
    forall k: nat | k < s.timeLeft
      ensures Allowed(s, Ticks(k)) && Run(s, Ticks(k)).gameState == Playing
    {
      CountdownRuns(s, k);
    }
    var n := s.timeLeft - 1;
    CountdownRuns(s, n);
    var last := Run(s, Ticks(n));
    StepValid(last, Tick);
    assert Allowed(last, [Tick]);
    assert Run(last, [Tick]) == s.(timeLeft := 0, gameState := GameOver);
    RunAppend(s, Ticks(n), [Tick]);
    TicksSnoc(n);
  }

  lemma {:induction false} TicksSnoc(n: nat)
    ensures Ticks(n) + [Tick] == Ticks(n + 1)
  {
    if n > 0 {
      TicksSnoc(n - 1);
      assert Ticks(n) + [Tick] == [Tick] + (Ticks(n - 1) + [Tick]);
    }
  }

  /** A second answer click while feedback is shown changes nothing; the
    * first one changes only the highlight, the feedback flag and the
    * scheduled resolution. */
  lemma SubmitIgnoredWhilePending(s: Session, i: int, j: int)
    requires Valid(s) && Enabled(s, Submit(i)) && !s.showFeedback
    requires 0 <= j < |Riddles[s.currentLevel].options|
    ensures var t := Step(s, Submit(i));
            && Enabled(t, Submit(j))
            && Step(t, Submit(j)) == t
            && t.score == s.score && t.gameState == s.gameState
            && t.currentLevel == s.currentLevel && t.timeLeft == s.timeLeft
            && t.selectedAnswer == Some(i) && t.showFeedback
  {
  }

  /** The resolution judges the answer against the riddle shown at the click
    * and pays for the clock at the click, whatever ticks came in between,
    * including the one that runs the clock out: the resolution then
    * overwrites the game-over screen. */
  lemma ResolveUsesClickTime(s: Session, answer: int, k: nat)
    requires Valid(s) && s.gameState == Playing && !s.showFeedback
    requires 0 <= answer < |Riddles[s.currentLevel].options|
    requires k <= s.timeLeft
    ensures var evs := [Submit(answer)] + Ticks(k) + [Resolve];
            && Allowed(s, evs)
            && var r := Run(s, evs);
            && (answer == Riddles[s.currentLevel].correctAnswer ==>
                  r.score == s.score + AnswerPoints(s.timeLeft)
                  && r.gameState == (if s.currentLevel < |Riddles| - 1 then LevelComplete else Victory))
            && (answer != Riddles[s.currentLevel].correctAnswer ==>
                  r.score == s.score && r.gameState == GameOver)
            && r.timeLeft == s.timeLeft - k && r.currentLevel == s.currentLevel
            && !r.showFeedback && r.selectedAnswer == None
  {
    var t := Step(s, Submit(answer));
    StepValid(s, Submit(answer));
    assert Allowed(s, [Submit(answer)]);
    assert Run(s, [Submit(answer)]) == t;
    if k < s.timeLeft {
      CountdownRuns(t, k);
    } else {
      TimesOutOnce(t);
    }
    RunAppend(s, [Submit(answer)], Ticks(k));
    var u := Run(t, Ticks(k));
    assert u.pending == t.pending;
    assert Allowed(u, [Resolve]);
    RunAppend(s, [Submit(answer)] + Ticks(k), [Resolve]);
  }

  /** The interval keeps running while feedback is shown, so the clock can
    * run out between an answer click and its resolution; the resolution
    * then overwrites the game-over screen. A right answer clicked with one
    * second left on a riddle before the last one ends on the continue
    * screen with the full reward for that second. */
  lemma TimeoutThenResolve(s: Session, answer: int)
    requires Valid(s) && s.gameState == Playing && !s.showFeedback && s.timeLeft == 1
    requires s.currentLevel < |Riddles| - 1
    requires answer == Riddles[s.currentLevel].correctAnswer
    ensures Allowed(s, [Submit(answer), Tick, Resolve])
    ensures Run(s, [Submit(answer), Tick]).gameState == GameOver
    ensures var r := Run(s, [Submit(answer), Tick, Resolve]);
            r.gameState == LevelComplete && r.timeLeft == 0
            && r.score == s.score + AnswerPoints(1)
  {
    CatalogWellFormed();
    var t := Step(s, Submit(answer));
    var u := Step(t, Tick);
    assert u.gameState == GameOver && u.pending.Some?;
    assert [Submit(answer), Tick][1..] == [Tick];
    assert Run(u, []) == u;
    assert Run(t, [Tick]) == u;
    assert Run(s, [Submit(answer), Tick]) == u;
    assert [Submit(answer), Tick, Resolve][1..] == [Tick, Resolve];
    assert [Tick, Resolve][1..] == [Resolve];
  }

  /** Answering a riddle right and continuing lands on the next riddle with
    * its own full clock and the question screen. */
  lemma CorrectThenNext(s: Session, k: nat)
    requires Valid(s) && s.gameState == Playing && !s.showFeedback
    requires s.currentLevel < |Riddles| - 1 && k < s.timeLeft
    ensures var evs := [Submit(Riddles[s.currentLevel].correctAnswer)] + Ticks(k) + [Resolve, Next];
            && Allowed(s, evs)
            && var r := Run(s, evs);
            && r.currentLevel == s.currentLevel + 1
            && r.timeLeft == Riddles[s.currentLevel + 1].timeLimit
            && r.gameState == Playing && !r.showFeedback
            && r.score == s.score + AnswerPoints(s.timeLeft)
  {
    CatalogWellFormed();
    var c := Riddles[s.currentLevel].correctAnswer;
    ResolveUsesClickTime(s, c, k);
    var pre := [Submit(c)] + Ticks(k) + [Resolve];
    var m := Run(s, pre);
    assert Allowed(m, [Next]);
    RunAppend(s, pre, [Next]);
    assert pre + [Next] == [Submit(c)] + Ticks(k) + [Resolve, Next];
  }

  /** Answering every riddle from `level` on right, at the first second,
    * and continuing after each. */
  function PerfectFrom(level: nat): seq<Event>
    requires level < |Riddles|
    decreases |Riddles| - level
  {
    var answer := [Submit(Riddles[level].correctAnswer), Resolve];
    if level == |Riddles| - 1 then answer else answer + [Next] + PerfectFrom(level + 1)
  }

  /** The points such a run earns: each riddle's full-clock reward. */
  function PerfectPoints(level: nat): int
    requires level < |Riddles|
    decreases |Riddles| - level
  {
    var here := AnswerPoints(Riddles[level].timeLimit);
    if level == |Riddles| - 1 then here else here + PerfectPoints(level + 1)
  }

  lemma {:induction false} PerfectFromWins(s: Session, level: nat)
    requires Valid(s) && s.gameState == Playing && !s.showFeedback
    requires level == s.currentLevel && s.timeLeft == Riddles[level].timeLimit
    ensures Allowed(s, PerfectFrom(level))
    ensures Run(s, PerfectFrom(level)).gameState == Victory
    ensures Run(s, PerfectFrom(level)).score == s.score + PerfectPoints(level)
    decreases |Riddles| - level
  {
    CatalogWellFormed();
    var c := Riddles[level].correctAnswer;
    ResolveUsesClickTime(s, c, 0);
    assert [Submit(c)] + Ticks(0) + [Resolve] == [Submit(c), Resolve];
    var answered := Run(s, [Submit(c), Resolve]);
    if level < |Riddles| - 1 {
      CorrectThenNext(s, 0);
      assert [Submit(c)] + Ticks(0) + [Resolve, Next] == [Submit(c), Resolve] + [Next];
      var m := Run(s, [Submit(c), Resolve] + [Next]);
      RunValid(s, [Submit(c), Resolve] + [Next]);
      PerfectFromWins(m, level + 1);
      RunAppend(s, [Submit(c), Resolve] + [Next], PerfectFrom(level + 1));
    }
  }

  /** Starting from the menu and answering all five riddles right at the
    * first second wins the game with 1600 points. */
  lemma PerfectGame()
    ensures Allowed(Initial(), [Start] + PerfectFrom(0))
    ensures Run(Initial(), [Start] + PerfectFrom(0)).gameState == Victory
    ensures Run(Initial(), [Start] + PerfectFrom(0)).score == 1600
  {
    InitialValid();
    CatalogWellFormed();
    var s := Step(Initial(), Start);
    StepValid(Initial(), Start);
    assert Run(Initial(), [Start]) == s;
    PerfectFromWins(s, 0);
    RunAppend(Initial(), [Start], PerfectFrom(0));
    assert PerfectPoints(0) == 1600;
  }

  /** A worked play-through: start, five seconds pass, the right answer;
    * continue; a wrong answer on the second riddle. The first riddle pays
    * 100 + 25 * 10 and the game ends with that score. */
  lemma SampleGame()
    ensures var evs := [Start] + Ticks(5) + [Submit(1), Resolve, Next, Submit(0), Resolve];
            && Allowed(Initial(), evs)
            && var r := Run(Initial(), evs);
            && r.gameState == GameOver && r.score == 350 && r.currentLevel == 1
  {
    InitialValid();
    CatalogWellFormed();
    var s := Step(Initial(), Start);
    StepValid(Initial(), Start);
    assert Run(Initial(), [Start]) == s;
    CountdownRuns(s, 5);
    var s5 := Run(s, Ticks(5));
    RunAppend(Initial(), [Start], Ticks(5));
    CorrectThenNext(s5, 0);
    var first := [Submit(1)] + Ticks(0) + [Resolve, Next];
    assert first == [Submit(1), Resolve, Next];
    var m := Run(s5, first);
    RunValid(s5, first);
    RunAppend(Initial(), [Start] + Ticks(5), first);
    ResolveUsesClickTime(m, 0, 0);
    var second := [Submit(0)] + Ticks(0) + [Resolve];
    assert second == [Submit(0), Resolve];
    RunAppend(Initial(), [Start] + Ticks(5) + first, second);
    assert [Start] + Ticks(5) + first + second
        == [Start] + Ticks(5) + [Submit(1), Resolve, Next, Submit(0), Resolve];
  }
}
