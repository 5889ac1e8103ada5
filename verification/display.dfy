/** The progress bar the display thread draws for each philosopher: how
    many of its cells are filled for a given elapsed time and duration. */
module Display {
  import opened Protocol

  /** Number of cells in a progress bar. */
  const BarWidth: int := 20

  /** Dafny's division of a non-negative number by a positive one brackets
      the exact quotient from below. */
  lemma DivBounds(a: int, b: int)
    requires a >= 0 && b > 0
    ensures 0 <= a / b && (a / b) * b <= a < (a / b) * b + b
  {
  }

  /** C++ integer division by a positive divisor: the exact quotient
      truncated toward zero (Dafny's `/` rounds down instead). */
  function TruncDiv(a: int, b: int): (q: int)
    requires b > 0
    ensures a >= 0 ==> 0 <= q && q * b <= a < q * b + b
    ensures a < 0 ==> q <= 0 && a < q * b + b && q * b <= a + b - 1 && q * b >= a
  {
    if a >= 0 then
      DivBounds(a, b);
      a / b
    else
      var m := (-a) / b;
      DivBounds(-a, b);
      assert (-m) * b == -(m * b);
      -m
  }

  lemma MulNonNegative(k: int, d: int)
    requires k >= 0 && d >= 0
    ensures k * d >= 0
  {
  }

  /** Cancelling a positive factor: x * d < (y + 1) * d gives x <= y. */
  lemma CancelFactor(x: int, y: int, d: int)
    requires d > 0 && x * d < y * d + d
    ensures x <= y
  {
    if x > y {
      MulNonNegative(x - y - 1, d);
    }
  }

  /** Filled cells of the bar: none while the duration is not positive,
      otherwise the truncated share elapsed/duration of the bar, capped at
      the full width. */
  function BarFill(elapsed: int, duration: int): (f: int)
    ensures duration <= 0 ==> f == 0
    ensures duration > 0 && elapsed >= 0 ==> 0 <= f <= BarWidth
    ensures duration > 0 && elapsed >= duration ==> f == BarWidth
    ensures duration > 0 && 0 <= elapsed <= duration ==>
      f * duration <= elapsed * BarWidth < f * duration + duration
  {
    if duration > 0 then
      var q := TruncDiv(elapsed * BarWidth, duration);
      assert elapsed <= duration ==> q <= BarWidth by {
        if elapsed <= duration {
          assert elapsed * BarWidth <= BarWidth * duration;
          CancelFactor(q, BarWidth, duration);
        }
      }
      assert elapsed >= duration ==> q >= BarWidth by {
        if elapsed >= duration {
          assert elapsed * BarWidth >= BarWidth * duration;
          CancelFactor(BarWidth, q, duration);
        }
      }
      if q > BarWidth then BarWidth else q
    else 0
  }

  /** More elapsed time never fills fewer cells. */
  lemma BarFillMonotone(e1: int, e2: int, duration: int)
    requires 0 <= e1 <= e2 && duration > 0
    ensures BarFill(e1, duration) <= BarFill(e2, duration)
  {
    var q1 := TruncDiv(e1 * BarWidth, duration);
    var q2 := TruncDiv(e2 * BarWidth, duration);
    MulNonNegative(e2 - e1, BarWidth);
    assert e1 * BarWidth <= e2 * BarWidth;
    CancelFactor(q1, q2, duration);
  }

  /** The bar is empty when an activity starts and full when it ends. */
  lemma BarFillEnds(duration: int)
    requires duration > 0
    ensures BarFill(0, duration) == 0
    ensures BarFill(duration, duration) == BarWidth
  {
  }

  /** In every state the threads can reach, each philosopher's bar fill lies
      within the bar, and the product elapsed * BarWidth stays far below the
      32-bit limit, so the C++ program's `int` arithmetic cannot overflow. */
  lemma DisplayedFillInRange(s: Sys, i: int)
    requires Inv(s) && 0 <= i < s.room.n
    ensures 0 <= BarFill(s.room.elapsed[i], s.room.duration[i]) <= BarWidth
    ensures 0 <= s.room.elapsed[i] * BarWidth <= ThinkMax * BarWidth < 0x8000_0000
  {
    assert 0 <= s.room.elapsed[i] <= ThinkMax;
  }
}
