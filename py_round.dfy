/** Python 3's built-in `round(x)` on a number, which rounds half to even ("banker's rounding"). */
module PyRound {

  /** `round(x)`: the nearest integer, and the even one of the two when `x` lies exactly halfway. */
  function RoundHalfEven(x: real): (r: int)
    ensures x - 0.5 <= r as real <= x + 0.5
    ensures (r as real == x - 0.5 || r as real == x + 0.5) ==> r % 2 == 0
  {
    var f := x.Floor;
    var frac := x - f as real;
    if frac < 0.5 then f
    else if frac > 0.5 then f + 1
    else if f % 2 == 0 then f
    else f + 1
  }

  /** The two properties in RoundHalfEven's contract determine its result: any integer
      that has them is the rounded value. */
  lemma RoundHalfEvenUnique(x: real, r: int)
    requires x - 0.5 <= r as real <= x + 0.5
    requires (r as real == x - 0.5 || r as real == x + 0.5) ==> r % 2 == 0
    ensures r == RoundHalfEven(x)
  {
  }

  /** Rounding an integral value gives it back. */
  lemma RoundOfInteger(n: int)
    ensures RoundHalfEven(n as real) == n
  {
    RoundHalfEvenUnique(n as real, n);
  }
}
