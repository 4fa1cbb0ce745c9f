/** The scalar helpers of Unity's Mathf used by the buoyancy code, over exact reals. */
module UnityMath {

  /** Mathf.Clamp: min when below it, max when above it, the value otherwise. */
  function Clamp(value: real, min: real, max: real): (r: real)
    ensures min <= max ==> min <= r <= max
    ensures min <= value <= max ==> r == value
    ensures value < min ==> r == min
    ensures min <= max < value ==> r == max
  {
    if value < min then min else if value > max then max else value
  }

  /** Mathf.Lerp: the weight is clamped to [0, 1] first. */
  function Lerp(a: real, b: real, t: real): (r: real)
    ensures t <= 0.0 ==> r == a
    ensures t >= 1.0 ==> r == b
  {
    a + (b - a) * Clamp(t, 0.0, 1.0)
  }

  /** Whatever the weight, Lerp never leaves the interval between its two ends. */
  lemma LerpBetween(a: real, b: real, t: real)
    ensures a <= b ==> a <= Lerp(a, b, t) <= b
    ensures b <= a ==> b <= Lerp(a, b, t) <= a
  {
    var w := Clamp(t, 0.0, 1.0);
    var d := if a <= b then b - a else a - b;
    MulNonNeg(d, w);
    MulNonNeg(d, 1.0 - w);
    assert d * w + d * (1.0 - w) == d;
  }

  lemma MulNonNeg(x: real, y: real)
    requires x >= 0.0 && y >= 0.0
    ensures x * y >= 0.0
  {
  }

  /**
   * Mathf.RoundToInt: the nearest integer, with halves going to the even
   * neighbour (the default rounding of System.Math.Round).
   */
  function RoundToInt(x: real): (r: int)
    ensures x - 0.5 <= r as real <= x + 0.5
    ensures (r as real == x - 0.5 || r as real == x + 0.5) ==> r % 2 == 0
  {
    var fl := x.Floor;
    var d := x - fl as real;
    if d < 0.5 then fl
    else if d > 0.5 then fl + 1
    else if fl % 2 == 0 then fl
    else fl + 1
  }

  /** The rounding is the only integer with the two properties RoundToInt promises. */
  lemma RoundToIntUnique(x: real, n: int)
    requires x - 0.5 <= n as real <= x + 0.5
    requires (n as real == x - 0.5 || n as real == x + 0.5) ==> n % 2 == 0
    ensures n == RoundToInt(x)
  {
  }
}
