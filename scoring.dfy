/** `calculateScore` in its linear-decay mode, on exact reals: the answer time is
    clamped into [0, timeLimit], the multiplier falls linearly from 1 to 1/2, and the
    product with the question's points is rounded as `Math.round` rounds. */
module Scoring {

  /** `Math.round`: to the nearest integer, halves upwards. */
  function Round(x: real): (r: int)
    ensures r as real <= x + 0.5 < r as real + 1.0
  {
    (x + 0.5).Floor
  }

  /** `Math.min(Math.max(elapsed, 0), timeLimit)`. */
  function Clamp(elapsed: real, timeLimit: real): (c: real)
    requires timeLimit > 0.0
    ensures 0.0 <= c <= timeLimit
    ensures 0.0 <= elapsed <= timeLimit ==> c == elapsed
    ensures elapsed <= 0.0 ==> c == 0.0
    ensures elapsed >= timeLimit ==> c == timeLimit
  {
    var atLeastZero := if elapsed > 0.0 then elapsed else 0.0;
    if atLeastZero < timeLimit then atLeastZero else timeLimit
  }

  /** `1 - timeRatio * 0.5`: full credit at once, half credit at the time limit. */
  function LinearMultiplier(elapsed: real, timeLimit: real): (m: real)
    requires timeLimit > 0.0
    ensures 0.5 <= m <= 1.0
    ensures elapsed <= 0.0 ==> m == 1.0
    ensures elapsed >= timeLimit ==> m == 0.5
  {
    var ratio := Clamp(elapsed, timeLimit) / timeLimit;
    assert 0.0 <= ratio <= 1.0 by {
      var c := Clamp(elapsed, timeLimit);
      assert ratio * timeLimit == c;
    }
    1.0 - ratio * 0.5
  }

  /** `calculateScore(isCorrect, elapsed, timeLimit, maxPoints, 'linear')`. */
  function LinearScore(isCorrect: bool, elapsed: real, timeLimit: real, maxPoints: int): (r: int)
    requires timeLimit > 0.0
    ensures !isCorrect ==> r == 0
    ensures isCorrect && elapsed <= 0.0 ==> r == maxPoints
    ensures isCorrect && elapsed >= timeLimit ==> r == Round(maxPoints as real * 0.5)
    ensures isCorrect && maxPoints >= 0 ==> Round(maxPoints as real * 0.5) <= r <= maxPoints
    ensures maxPoints >= 0 ==> r >= 0
  {
    if !isCorrect then 0
    else
      var m := LinearMultiplier(elapsed, timeLimit);
      var p := maxPoints as real;
      assert maxPoints >= 0 ==> Round(p * 0.5) <= Round(p * m) <= Round(p) by {
        if maxPoints >= 0 {
          ScaleMonotone(p, 0.5, m);
          ScaleMonotone(p, m, 1.0);
          RoundMonotone(p * 0.5, p * m);
          RoundMonotone(p * m, p);
        }
      }
      Round(p * m)
  }

  lemma RoundMonotone(x: real, y: real)
    requires x <= y
    ensures Round(x) <= Round(y)
  {
  }

  /** A later answer never earns more: the score is non-increasing in the elapsed time. */
  lemma LinearScoreMonotone(isCorrect: bool, e1: real, e2: real, timeLimit: real, maxPoints: int)
    requires timeLimit > 0.0 && maxPoints >= 0 && e1 <= e2
    ensures LinearScore(isCorrect, e2, timeLimit, maxPoints) <= LinearScore(isCorrect, e1, timeLimit, maxPoints)
  {
    if isCorrect {
      var m1, m2 := LinearMultiplier(e1, timeLimit), LinearMultiplier(e2, timeLimit);
      LinearMultiplierAntitone(e1, e2, timeLimit);
      var p := maxPoints as real;
      ScaleMonotone(p, m2, m1);
      RoundMonotone(p * m2, p * m1);
    }
  }

  lemma LinearMultiplierAntitone(e1: real, e2: real, timeLimit: real)
    requires timeLimit > 0.0 && e1 <= e2
    ensures LinearMultiplier(e2, timeLimit) <= LinearMultiplier(e1, timeLimit)
  {
    var c1, c2 := Clamp(e1, timeLimit), Clamp(e2, timeLimit);
    assert c1 <= c2;
    DivideMonotone(c1, c2, timeLimit);
  }

  lemma DivideMonotone(x: real, y: real, d: real)
    requires d > 0.0 && x <= y
    ensures x / d <= y / d
  {
    assert y / d - x / d == (y - x) / d;
  }

  lemma ScaleMonotone(p: real, a: real, b: real)
    requires p >= 0.0 && a <= b
    ensures p * a <= p * b
  {
    assert p * b - p * a == p * (b - a);
  }

  /** A worked example: a correct answer four seconds into a
      twenty-second question worth 1000 points earns round(1000 * (1 - 4/20 * 0.5)) = 900,
      and a wrong one earns nothing. */
  lemma LinearScoreExample()
    ensures LinearScore(true, 4.0, 20.0, 1000) == 900
    ensures LinearScore(false, 4.0, 20.0, 1000) == 0
  {
    assert LinearMultiplier(4.0, 20.0) == 0.9;
  }
}
