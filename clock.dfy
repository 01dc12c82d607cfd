/** Time and arithmetic shared by both revisions of the scheduler.
    The board's millisecond clock is not modelled: every poll receives the
    clock reading as a parameter, and a sequence of readings is required to
    be non-decreasing. */
module Clock {

  /** The magnitude of an interval, as `abs` computes it on the board
      (mathematical integers: the 64-bit minimum is not special here). */
  function Abs(x: int): (r: nat)
    ensures r == x || r == -x
    ensures x >= 0 ==> r == x
  {
    if x < 0 then -x else x
  }

  /** Clock readings taken one after another never go backwards. */
  ghost predicate NonDecreasing(times: seq<int>) {
    forall a, b :: 0 <= a < b < |times| ==> times[a] <= times[b]
  }
}
