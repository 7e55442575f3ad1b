/** The fixed, ordered catalog of riddles the game walks through. */
module Catalog {

  /** One catalog entry: the question, its options, the index of the right
    * option and the countdown (in whole seconds) for that riddle. */
  datatype Riddle = Riddle(
    id: nat,
    question: string,
    options: seq<string>,
    correctAnswer: int,
    timeLimit: int)

  /** A riddle can be played: the right answer is one of its options and its
    * countdown starts above zero. */
  predicate WellFormed(r: Riddle)
  {
    0 <= r.correctAnswer < |r.options| && r.timeLimit > 0
  }

  const Riddles: seq<Riddle> := [
    Riddle(1, "Что можно увидеть с закрытыми глазами?",
           ["Темноту", "Сон", "Свет", "Мечту"], 1, 30),
    Riddle(2, "Летит — кричит, сядет — молчит. Кто это?",
           ["Птица", "Снег", "Пуля", "Самолет"], 1, 25),
    Riddle(3, "Что становится больше, когда его ставят вверх ногами?",
           ["Стакан", "Число 6", "Зонт", "Дерево"], 1, 20),
    Riddle(4, "Чем больше из неё берёшь, тем больше она становится. Что это?",
           ["Вода", "Яма", "Знание", "Время"], 1, 20),
    Riddle(5, "У кого есть шея, но нет головы?",
           ["Змея", "Бутылка", "Рубашка", "Гитара"], 1, 15)
  ]

  /** Every riddle of the catalog is well formed, there are five of them and
    * their ids follow catalog order. */
  lemma CatalogWellFormed()
    ensures |Riddles| == 5
    ensures forall i :: 0 <= i < |Riddles| ==> WellFormed(Riddles[i])
    ensures forall i :: 0 <= i < |Riddles| ==> Riddles[i].id == i + 1
  {
  }

  /** Countdown of the riddle at `level`; always positive. */
  function TimeLimit(level: int): (t: int)
    requires 0 <= level < |Riddles|
    ensures t > 0 && t == Riddles[level].timeLimit
  {
    CatalogWellFormed();
    Riddles[level].timeLimit
  }

  /** Points for a correct answer given with `timeLeft` whole seconds on the
    * clock: 100 plus a time bonus of ten points per second. The answer
    * handler computes the bonus as the floor of timeLeft * 10; timeLeft is
    * always a whole number, so the floor is the product itself. */
  function AnswerPoints(timeLeft: int): int
  {
    100 + timeLeft * 10
  }

  /** The time bonus rewards speed: more seconds left, strictly more points,
    * and never fewer than 100 points for a non-negative clock. */
  lemma AnswerPointsRewardsSpeed(t1: int, t2: int)
    requires 0 <= t1 < t2
    ensures 100 <= AnswerPoints(t1) < AnswerPoints(t2)
    ensures AnswerPoints(t2) - AnswerPoints(t1) == 10 * (t2 - t1)
  {
  }
}
