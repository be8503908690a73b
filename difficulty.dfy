/** Difficulty and score arithmetic: the level reached, the frame delay it
    gives, and the score, all driven by the number of foods eaten. */
module Difficulty {

  /** One level per ten foods eaten; a negative count is level 0. */
  function ComputeLevel(foodEaten: int): (level: int)
    ensures level >= 0
    ensures foodEaten < 0 ==> level == 0
    ensures foodEaten >= 0 ==> level * 10 <= foodEaten < (level + 1) * 10
  {
    if foodEaten < 0 then 0 else foodEaten / 10
  }

  lemma LevelMonotone(a: int, b: int)
    requires a <= b
    ensures ComputeLevel(a) <= ComputeLevel(b)
  {
  }

  lemma LevelThresholds()
    ensures ComputeLevel(-1) == 0 && ComputeLevel(0) == 0 && ComputeLevel(9) == 0
    ensures ComputeLevel(10) == 1 && ComputeLevel(19) == 1 && ComputeLevel(20) == 2
  {
  }

  /** The frame delay: the base delay less one reduction per level (a negative
      level counting as 0), but never below the minimum. */
  function ComputeDelayMs(level: int, baseDelayMs: int := 500,
                          perLevelReductionMs: int := 100, minDelayMs: int := 100): (delay: int)
    ensures delay >= minDelayMs
    ensures delay >= baseDelayMs - (if level < 0 then 0 else level) * perLevelReductionMs
    ensures delay == minDelayMs
         || delay == baseDelayMs - (if level < 0 then 0 else level) * perLevelReductionMs
  {
    var lv := if level < 0 then 0 else level;
    var reduced := baseDelayMs - lv * perLevelReductionMs;
    if minDelayMs < reduced then reduced else minDelayMs
  }

  /** With a non-negative reduction a higher level never slows the game down. */
  lemma DelayNonIncreasing(l1: int, l2: int, baseDelayMs: int, perLevelReductionMs: int, minDelayMs: int)
    requires l1 <= l2
    requires perLevelReductionMs >= 0
    ensures ComputeDelayMs(l2, baseDelayMs, perLevelReductionMs, minDelayMs)
         <= ComputeDelayMs(l1, baseDelayMs, perLevelReductionMs, minDelayMs)
  {
  }

  /** The default curve: 500, 400, 300, 200 ms, then 100 ms from level 4 on. */
  lemma DefaultDelays(level: int)
    ensures ComputeDelayMs(0) == 500 && ComputeDelayMs(1) == 400
    ensures ComputeDelayMs(2) == 300 && ComputeDelayMs(3) == 200
    ensures level >= 4 ==> ComputeDelayMs(level) == 100
    ensures level <= 0 ==> ComputeDelayMs(level) == 500
    ensures 100 <= ComputeDelayMs(level) <= 500
  {
  }

  lemma CustomDelays()
    ensures ComputeDelayMs(3, 600, 50, 200) == 450
    ensures ComputeDelayMs(10, 600, 50, 200) == 200
  {
  }

  /** The score: nothing until something is eaten, then the points of each food. */
  function ComputeScore(foodEaten: int, pointsPerFood: int := 10): (score: int)
    ensures foodEaten <= 0 ==> score == 0
    ensures pointsPerFood >= 0 ==> score >= 0
  {
    if foodEaten <= 0 then 0 else foodEaten * pointsPerFood
  }

  /** Every food eaten adds exactly the points of one food. */
  lemma ScoreStep(foodEaten: int, pointsPerFood: int)
    requires foodEaten >= 0
    ensures ComputeScore(foodEaten + 1, pointsPerFood) == ComputeScore(foodEaten, pointsPerFood) + pointsPerFood
  {
  }

  lemma ScoreExamples()
    ensures ComputeScore(-1) == 0 && ComputeScore(0) == 0
    ensures ComputeScore(1) == 10 && ComputeScore(5) == 50
    ensures ComputeScore(3, 7) == 21 && ComputeScore(10, 1) == 10
  {
  }
}
