/**
 * Out-of-order detection, as both benchmark programs do it: a sequence number
 * that is not strictly greater than the one seen just before it is counted,
 * never corrected or rejected.
 */
module SeqOrder {

  /** The number of positions whose sequence number does not exceed its predecessor's. */
  function OutOfOrderCount(h: seq<nat>): nat {
    if |h| < 2 then 0
    else OutOfOrderCount(h[..|h| - 1]) + (if h[|h| - 1] <= h[|h| - 2] then 1 else 0)
  }

  /**
   * One arrival's update: the count rises by one exactly when there was an
   * earlier arrival and the new number does not exceed the latest one.
   */
  lemma OutOfOrderAppend(h: seq<nat>, x: nat)
    ensures OutOfOrderCount(h + [x]) == OutOfOrderCount(h) + (if h != [] && x <= h[|h| - 1] then 1 else 0)
  {
    assert (h + [x])[..|h|] == h;
  }

  /** Every sequence number is strictly greater than the one before it. */
  predicate Increasing(h: seq<nat>) {
    forall i :: 0 < i < |h| ==> h[i - 1] < h[i]
  }

  /** The stream [1, 2, 2, 5, 3] has two out-of-order events: the second 2 and the 3. */
  lemma OutOfOrderExample()
    ensures OutOfOrderCount([1, 2, 2, 5, 3]) == 2
  {
    assert [1, 2, 2, 5, 3][..4] == [1, 2, 2, 5];
    assert [1, 2, 2, 5][..3] == [1, 2, 2];
    assert [1, 2, 2][..2] == [1, 2];
    assert [1, 2][..1] == [1];
  }

  /** No event is counted exactly when the stream is strictly increasing. */
  lemma {:induction false} NoneOutOfOrderIffIncreasing(h: seq<nat>)
    ensures OutOfOrderCount(h) == 0 <==> Increasing(h)
  {
    if |h| >= 2 {
      var t := h[..|h| - 1];
      NoneOutOfOrderIffIncreasing(t);
      assert forall i :: 0 <= i < |t| ==> t[i] == h[i];
    }
  }

  /** At most one event per arrival after the first. */
  lemma {:induction false} OutOfOrderBound(h: seq<nat>)
    requires h != []
    ensures OutOfOrderCount(h) <= |h| - 1
  {
    if |h| >= 2 {
      OutOfOrderBound(h[..|h| - 1]);
    }
  }

  /**
   * The out-of-order count and the latest sequence number follow the
   * history of decoded sequence numbers, in arrival order.
   */
  ghost predicate OrderAgrees(outOfOrder: nat, history: seq<nat>, haveLast: bool, last: nat) {
    && outOfOrder == OutOfOrderCount(history)
    && haveLast == (history != [])
    && (haveLast ==> last == history[|history| - 1])
  }

  /** Each decoded arrival: one at or below the latest one is one more out of order. */
  lemma OrderStep(outOfOrder: nat, history: seq<nat>, haveLast: bool, last: nat, a: nat)
    requires OrderAgrees(outOfOrder, history, haveLast, last)
    ensures OrderAgrees(outOfOrder + (if haveLast && a <= last then 1 else 0), history + [a], true, a)
  {
    OutOfOrderAppend(history, a);
  }
}
