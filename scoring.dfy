/** Points for cleared lines, and the level and drop speed derived from the score. */
module Scoring {

  /** The points arenaSweep adds for clearing `lines` rows in one sweep: 100 per row,
      plus a bonus of 100, 200 or 400 for two, three or four rows. */
  function ScoreDelta(lines: int): (d: int)
    ensures d >= 0
    ensures lines <= 0 ==> d == 0
    ensures 1 <= lines <= 4 ==> d == [0, 100, 300, 500, 800][lines]
    ensures lines > 4 ==> d == 100 * lines
  {
    if lines > 0 then
      lines * 100 + (if lines == 2 then 100 else if lines == 3 then 200 else if lines == 4 then 400 else 0)
    else 0
  }

  /** updateScore's level: Math.floor(score / 1000) + 1. Dafny's division by a
      positive divisor rounds down, as Math.floor does, for every sign of score. */
  function LevelFor(score: int): (level: int)
    ensures (level - 1) * 1000 <= score < level * 1000
    ensures score >= 0 ==> level >= 1
  {
    score / 1000 + 1
  }

  /** updateScore's drop interval in milliseconds: 1000 - 100 * level, raised to 100. */
  function IntervalFor(level: int): (ms: int)
    ensures ms >= 100
    ensures ms == 100 || ms == 1000 - 100 * level
    ensures ms >= 1000 - 100 * level
  {
    var raw := 1000 - level * 100;
    if raw < 100 then 100 else raw
  }

  /** For any score the game can reach, the drop interval lies in [100, 900] ms. */
  lemma IntervalBounds(score: int)
    requires score >= 0
    ensures 100 <= IntervalFor(LevelFor(score)) <= 900
  {
  }

  /** A higher score never means a lower level or a slower drop. */
  lemma ProgressionMonotone(s1: int, s2: int)
    requires s1 <= s2
    ensures LevelFor(s1) <= LevelFor(s2)
    ensures IntervalFor(LevelFor(s2)) <= IntervalFor(LevelFor(s1))
  {
  }

  /** Every 1000 points raise the level by one, and from level 9 on the interval stays at 100 ms. */
  lemma ProgressionSteps(score: int)
    requires score >= 0
    ensures LevelFor(score + 1000) == LevelFor(score) + 1
    ensures score >= 8000 ==> IntervalFor(LevelFor(score)) == 100
  {
  }
}
