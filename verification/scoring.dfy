/**
 * The time-decayed score of a correct guess in `submitPlayerGuess` of
 * server/Game.ts, over integers: `Math.round` becomes floor division and the
 * clock is a parameter.
 */
module Scoring {

  /** `COUNTDOWN_INTERVAL`, in milliseconds (shared/constants.ts). */
  const CountdownInterval: int := 400

  /** Floor of `a / b`, for either sign of `b`. */
  function FloorDiv(a: int, b: int): (q: int)
    requires b != 0
    ensures b > 0 ==> q * b <= a < (q + 1) * b
    ensures b < 0 ==> (q + 1) * b < a <= q * b
  {
    if b > 0 then a / b
    else
      var q := (-a) / (-b);
      assert -a == q * (-b) + (-a) % (-b);
      q
  }

  /** `Math.round(num / den)`: the nearest integer, halves rounded up. */
  function MathRound(num: int, den: int): (r: int)
    requires den != 0
    ensures den > 0 ==> (2 * r - 1) * den <= 2 * num < (2 * r + 1) * den
    ensures den < 0 ==> (2 * r + 1) * den < 2 * num <= (2 * r - 1) * den
  {
    var q := FloorDiv(2 * num + den, 2 * den);
    assert q * (2 * den) == (2 * q) * den;
    assert (q + 1) * (2 * den) == (2 * q + 2) * den;
    q
  }

  /** A score: `Math.round` of a division by a zero duration is not a finite number. */
  datatype Points = Finite(n: int) | NonFinite

  /** The guess's remaining time: the round's length, minus the time since it started, plus three countdown steps. */
  function TimeRemaining(maxDuration: int, startTime: int, now: int): int {
    maxDuration - (now - startTime) + 3 * CountdownInterval
  }

  /**
   * The score of a guess: 0 when wrong; otherwise the remaining time as a
   * share of the round's length, in thousandths, rounded to the nearest
   * integer.
   */
  function GuessPoints(correct: bool, maxDuration: int, startTime: int, now: int): (p: Points)
    ensures !correct ==> p == Finite(0)
    ensures correct && maxDuration == 0 ==> p == NonFinite
    ensures correct && maxDuration > 0 ==> (p.Finite? &&
      (2 * p.n - 1) * maxDuration <= 2000 * TimeRemaining(maxDuration, startTime, now) < (2 * p.n + 1) * maxDuration)
    ensures correct && maxDuration < 0 ==> (p.Finite? &&
      (2 * p.n + 1) * maxDuration < 2000 * TimeRemaining(maxDuration, startTime, now) <= (2 * p.n - 1) * maxDuration)
  {
    if !correct then Finite(0)
    else if maxDuration == 0 then NonFinite
    else Finite(MathRound(1000 * TimeRemaining(maxDuration, startTime, now), maxDuration))
  }

  lemma MulMonotone(a: int, b: int, d: int)
    requires a <= b && d >= 0
    ensures a * d <= b * d
  {
    assert b * d - a * d == (b - a) * d;
  }

  /** Rounding is monotone in the numerator. */
  lemma MathRoundMonotone(n1: int, n2: int, den: int)
    requires n1 <= n2 && den > 0
    ensures MathRound(n1, den) <= MathRound(n2, den)
  {
    var r1, r2 := MathRound(n1, den), MathRound(n2, den);
    if r1 > r2 {
      MulMonotone(2 * r2 + 1, 2 * r1 - 1, den);
    }
  }

  /** The later a correct guess arrives, the fewer points it earns. */
  lemma PointsNonIncreasing(maxDuration: int, startTime: int, now1: int, now2: int)
    requires maxDuration > 0 && now1 <= now2
    ensures GuessPoints(true, maxDuration, startTime, now1).n >= GuessPoints(true, maxDuration, startTime, now2).n
  {
    MathRoundMonotone(1000 * TimeRemaining(maxDuration, startTime, now2),
                      1000 * TimeRemaining(maxDuration, startTime, now1), maxDuration);
  }

  /** A correct guess within the three countdown steps earns at least 1000 points. */
  lemma EarlyGuessFullPoints(maxDuration: int, startTime: int, now: int)
    requires maxDuration > 0 && now - startTime <= 3 * CountdownInterval
    ensures GuessPoints(true, maxDuration, startTime, now).n >= 1000
  {
    var r := GuessPoints(true, maxDuration, startTime, now).n;
    if r < 1000 {
      MulMonotone(2 * r + 1, 1999, maxDuration);
    }
  }

  /** A correct guess arriving after the round and the countdown are over earns no positive score. */
  lemma LateGuessNoPoints(maxDuration: int, startTime: int, now: int)
    requires maxDuration > 0 && now - startTime >= maxDuration + 3 * CountdownInterval
    ensures GuessPoints(true, maxDuration, startTime, now).n <= 0
  {
    var r := GuessPoints(true, maxDuration, startTime, now).n;
    if r > 0 {
      MulMonotone(1, 2 * r - 1, maxDuration);
    }
  }
}
