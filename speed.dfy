// The speed controller: the tick counter that gates movement and the
// threshold that shrinks as food is eaten.

module Speed {
  import opened Arith

  /** Whether a call of RunSingleIteration moves the snake: the incremented
      counter exceeds the threshold. */
  predicate MovesNow(counter: int, threshold: int)
  {
    counter + 1 > threshold
  }

  /** The counter after one call on a running game: reset on a moving call,
      one more otherwise. */
  function CounterAfterCall(counter: int, threshold: int): int
  {
    if MovesNow(counter, threshold) then 0 else counter + 1
  }

  /** The counter after `calls` calls from a fresh game, the threshold fixed. */
  function CounterAfter(threshold: int, calls: nat): int
  {
    if calls == 0 then 0 else CounterAfterCall(CounterAfter(threshold, calls - 1), threshold)
  }

  /** With threshold T the counter runs 0, 1, .., T and back to 0. */
  lemma {:induction false} CounterPeriod(threshold: nat, calls: nat)
    ensures CounterAfter(threshold, calls) == calls % (threshold + 1)
  {
    var n := threshold + 1;
    if calls > 0 {
      CounterPeriod(threshold, calls - 1);
      var r := (calls - 1) % n;
      assert calls - 1 == n * ((calls - 1) / n) + r;
      if r + 1 < n {
        assert calls == n * ((calls - 1) / n) + (r + 1);
        ModUnique(calls, n, (calls - 1) / n, r + 1);
      } else {
        assert calls == n * ((calls - 1) / n + 1) + 0;
        ModUnique(calls, n, (calls - 1) / n + 1, 0);
      }
    }
  }

  /** Only every (T + 1)-th call moves: call number k (counted from 1) of a
      fresh game with threshold T moves exactly when k is a multiple of T + 1. */
  lemma MovesEveryPeriod(threshold: nat, call: nat)
    requires call >= 1
    ensures MovesNow(CounterAfter(threshold, call - 1), threshold) <==> call % (threshold + 1) == 0
  {
    CounterPeriod(threshold, call - 1);
    CounterPeriod(threshold, call);
  }

  /** UpdateIterationCheck: after the meal that brings the count to
      `foodEaten`, the threshold drops by `decrement` when the count is a
      multiple of `foodPerUpdate`, but not below `minimum`. */
  function NextThreshold(foodEaten: int, threshold: int, foodPerUpdate: int, decrement: int, minimum: int): (next: int)
    requires foodPerUpdate != 0
    ensures foodEaten % foodPerUpdate != 0 ==> next == threshold
    ensures foodEaten % foodPerUpdate == 0 ==> next >= minimum
    ensures foodEaten % foodPerUpdate == 0 && threshold - decrement >= minimum ==> next == threshold - decrement
    ensures foodEaten % foodPerUpdate == 0 && threshold - decrement < minimum ==> next == minimum
    ensures decrement >= 0 && threshold >= minimum ==> minimum <= next <= threshold
  {
    if foodEaten % foodPerUpdate == 0 then
      var lowered := threshold - decrement;
      if lowered < minimum then minimum else lowered
    else
      threshold
  }

  /** The threshold after `meals` meals, starting from `initial`. */
  function ThresholdAfterMeals(initial: int, meals: nat, foodPerUpdate: int, decrement: int, minimum: int): int
    requires foodPerUpdate != 0
  {
    if meals == 0 then initial
    else NextThreshold(meals, ThresholdAfterMeals(initial, meals - 1, foodPerUpdate, decrement, minimum),
                       foodPerUpdate, decrement, minimum)
  }

  /** Over a session the game only speeds up or keeps its pace: with a
      non-negative decrement and a start at or above the minimum, the
      threshold never rises and never drops below the minimum. */
  lemma {:induction false} ThresholdNonIncreasing(initial: int, earlier: nat, later: nat,
                                                  foodPerUpdate: int, decrement: int, minimum: int)
    requires foodPerUpdate != 0 && decrement >= 0 && initial >= minimum
    requires earlier <= later
    ensures minimum <= ThresholdAfterMeals(initial, later, foodPerUpdate, decrement, minimum)
                    <= ThresholdAfterMeals(initial, earlier, foodPerUpdate, decrement, minimum)
                    <= initial
  {
    if later > earlier {
      ThresholdNonIncreasing(initial, earlier, later - 1, foodPerUpdate, decrement, minimum);
    } else if earlier > 0 {
      ThresholdNonIncreasing(initial, earlier - 1, earlier - 1, foodPerUpdate, decrement, minimum);
    }
  }
}
