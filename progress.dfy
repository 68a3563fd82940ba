/**
  The progression of src/App.jsx: five levels of five questions, a streak
  of puzzles solved without revealing the answer, the level-up dialog
  between levels and the completion screen after the last puzzle.
 */
module Progress {
  import opened Puzzles

  const Levels: nat := 5
  const QuestionsPerLevel: nat := 5

  /** `getTimeLimit(lvl)`: seconds on the clock for a level; 30 for any other value. */
  function TimeLimit(level: int): (seconds: nat)
    ensures 30 <= seconds <= 120
    ensures !(1 <= level <= Levels) ==> seconds == 30
  {
    match level
    case 1 => 30
    case 2 => 40
    case 3 => 60
    case 4 => 90
    case 5 => 120
    case _ => 30
  }

  /** Each level gives more time than the one before. */
  lemma TimeLimitIncreasing(a: int, b: int)
    requires 1 <= a < b <= Levels
    ensures TimeLimit(a) < TimeLimit(b)
  {
    assert a in {1, 2, 3, 4} && b in {2, 3, 4, 5};
  }

  /** The position of a question in the whole game, from 1 to 25. */
  function Stage(level: int, question: int): (s: int)
    requires 1 <= level <= Levels && 1 <= question <= QuestionsPerLevel
    ensures 1 <= s <= Levels * QuestionsPerLevel
  {
    (level - 1) * QuestionsPerLevel + question
  }

  /** Different questions have different positions. */
  lemma StageInjective(l1: int, q1: int, l2: int, q2: int)
    requires 1 <= l1 <= Levels && 1 <= q1 <= QuestionsPerLevel
    requires 1 <= l2 <= Levels && 1 <= q2 <= QuestionsPerLevel
    requires Stage(l1, q1) == Stage(l2, q2)
    ensures l1 == l2 && q1 == q2
  {
  }

  /** The state of `App`. */
  class Session {
    var level: int
    var question: int
    var streak: nat
    var showLevelUp: bool
    var gameComplete: bool

    /**
      The reachable states: level and question within 1..5; the level-up
      dialog only after the last question of a level below 5; the game
      complete only after the last question of level 5.
     */
    ghost predicate Valid()
      reads this
    {
      && 1 <= level <= Levels && 1 <= question <= QuestionsPerLevel
      && (showLevelUp ==> question == QuestionsPerLevel && level < Levels)
      && (gameComplete ==> question == QuestionsPerLevel && level == Levels)
    }

    /** Level 1, question 1, no streak. */
    constructor ()
      ensures Valid()
      ensures level == 1 && question == 1 && streak == 0 && !showLevelUp && !gameComplete
    {
      level := 1;
      question := 1;
      streak := 0;
      showLevelUp := false;
      gameComplete := false;
    }

    /**
      `goToNextQuestion`: the next question of the level; after the last
      one, the level-up dialog below level 5, the completion screen at it.
     */
    method GoToNextQuestion()
      requires Valid()
      modifies this
      ensures Valid()
      ensures level == old(level) && streak == old(streak)
      ensures old(question) < QuestionsPerLevel ==>
        && question == old(question) + 1
        && Stage(level, question) == Stage(old(level), old(question)) + 1
        && showLevelUp == old(showLevelUp) && gameComplete == old(gameComplete)
      ensures old(question) == QuestionsPerLevel ==>
        && question == old(question)
        && showLevelUp == (old(showLevelUp) || level < Levels)
        && gameComplete == (old(gameComplete) || level == Levels)
    {
      if question < QuestionsPerLevel {
        question := question + 1;
      } else {
        if level < Levels {
          showLevelUp := true;
        } else {
          gameComplete := true;
        }
      }
    }

    /** `handleNext`: a solved puzzle extends the streak and moves on. */
    method Next()
      requires Valid()
      modifies this
      ensures Valid()
      ensures streak == old(streak) + 1 && level == old(level)
      ensures old(question) < QuestionsPerLevel ==>
        && question == old(question) + 1
        && showLevelUp == old(showLevelUp) && gameComplete == old(gameComplete)
      ensures old(question) == QuestionsPerLevel ==>
        && question == old(question)
        && showLevelUp == (old(showLevelUp) || level < Levels)
        && gameComplete == (old(gameComplete) || level == Levels)
    {
      streak := streak + 1;
      GoToNextQuestion();
    }

    /**
      `handleNext` as the delayed `onComplete` of a solved puzzle runs it:
      the closure was created while the state showed `seenLevel` and
      `seenQuestion`, so it tests those values, while the question advances
      through a functional update of the current one.
     */
    method NextSeen(seenLevel: int, seenQuestion: int)
      modifies this
      ensures streak == old(streak) + 1 && level == old(level)
      ensures seenQuestion < QuestionsPerLevel ==>
        && question == old(question) + 1
        && showLevelUp == old(showLevelUp) && gameComplete == old(gameComplete)
      ensures seenQuestion >= QuestionsPerLevel ==>
        && question == old(question)
        && showLevelUp == (old(showLevelUp) || seenLevel < Levels)
        && gameComplete == (old(gameComplete) || seenLevel >= Levels)
    {
      streak := streak + 1;
      if seenQuestion < QuestionsPerLevel {
        question := question + 1;
      } else {
        if seenLevel < Levels {
          showLevelUp := true;
        } else {
          gameComplete := true;
        }
      }
    }

    /** `handleSkip`: moves on without touching the streak. */
    method Skip()
      requires Valid()
      modifies this
      ensures Valid()
      ensures streak == old(streak) && level == old(level)
      ensures old(question) < QuestionsPerLevel ==>
        && question == old(question) + 1
        && showLevelUp == old(showLevelUp) && gameComplete == old(gameComplete)
      ensures old(question) == QuestionsPerLevel ==>
        && question == old(question)
        && showLevelUp == (old(showLevelUp) || level < Levels)
        && gameComplete == (old(gameComplete) || level == Levels)
    {
      GoToNextQuestion();
    }

    /** `handleCheat`: revealing the answer or running out of time loses the streak. */
    method Cheat()
      requires Valid()
      modifies this
      ensures Valid()
      ensures streak == 0
      ensures level == old(level) && question == old(question)
      ensures showLevelUp == old(showLevelUp) && gameComplete == old(gameComplete)
    {
      streak := 0;
    }

    /**
      `advanceLevel`, the button of the level-up dialog: the first question
      of the next level, the question right after the last one.
     */
    method AdvanceLevel()
      requires Valid() && showLevelUp
      modifies this
      ensures Valid()
      ensures level == old(level) + 1 && question == 1 && !showLevelUp
      ensures Stage(level, question) == Stage(old(level), old(question)) + 1
      ensures streak == old(streak) && gameComplete == old(gameComplete)
    {
      showLevelUp := false;
      level := level + 1;
      question := 1;
    }

    /** `restartGame`, the button of the completion screen: back to the start, streak lost. */
    method Restart()
      requires Valid() && gameComplete
      modifies this
      ensures Valid()
      ensures level == 1 && question == 1 && streak == 0 && !gameComplete && !showLevelUp
    {
      gameComplete := false;
      level := 1;
      question := 1;
      streak := 0;
    }

    /** The number of numbers of the puzzle generated for the current level. */
    function PuzzleSize(): (n: nat)
      requires Valid()
      reads this
      ensures n == if level < 3 then 2 else level
    {
      NumCount(level)
    }
  }

  /**
    A solved question 4 whose delayed `onComplete` fires after the player
    revealed the answer and skipped to question 5: the stale callback takes
    the game to question 6, outside the reachable states.
   */
  method StaleCompletionOverruns() returns (s: Session)
    ensures s.level == 1 && s.question == QuestionsPerLevel + 1
    ensures !s.Valid()
  {
    s := new Session();
    s.Skip();
    s.Skip();
    s.Skip();
    var seenLevel, seenQuestion := s.level, s.question;
    s.Cheat();
    s.Skip();
    s.NextSeen(seenLevel, seenQuestion);
  }
}
