/** The `Score` accumulator: a signed 64-bit count. Overflow of `+=` and `-=` is
    undefined behaviour in C++, so the operations require it not to happen. The
    font, screen position and texture fields only serve drawing. */
module Scores {
  import opened Ints

  datatype Score = Score(score: Int64)

  /** The constructor; the initial score defaults to 0. */
  function NewScore(initialScore: Int64 := 0): (r: Score)
    ensures GetScore(r) == initialScore
  {
    Score(initialScore)
  }

  function GetScore(s: Score): Int64 {
    s.score
  }

  function SetScore(s: Score, value: Int64): (r: Score)
    ensures GetScore(r) == value
  {
    s.(score := value)
  }

  function AddScore(s: Score, value: Int64): (r: Score)
    requires InInt64(s.score + value)
    ensures GetScore(r) - GetScore(s) == value
  {
    s.(score := s.score + value)
  }

  function SubtractScore(s: Score, value: Int64): (r: Score)
    requires InInt64(s.score - value)
    ensures GetScore(s) - GetScore(r) == value
  {
    s.(score := s.score - value)
  }

  lemma DefaultScoreIsZero()
    ensures GetScore(NewScore()) == 0
  {
  }

  /** Setting overwrites whatever was there: only the last set is visible. */
  lemma SetThenGet(s: Score, v: Int64, w: Int64)
    ensures GetScore(SetScore(s, v)) == v
    ensures SetScore(SetScore(s, v), w) == SetScore(s, w)
  {
  }

  /** Adding then subtracting the same amount restores the score, and so does
      subtracting then adding. */
  lemma AddSubtractRoundTrip(s: Score, v: Int64)
    ensures InInt64(s.score + v) ==> SubtractScore(AddScore(s, v), v) == s
    ensures InInt64(s.score - v) ==> AddScore(SubtractScore(s, v), v) == s
  {
  }
}
