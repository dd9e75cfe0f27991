/**
 * The responder's inter-arrival bookkeeping stated over plain values: the
 * gaps between consecutive request arrivals, and how the receipt counter,
 * the previous arrival time and the gap statistics follow the arrivals.
 */
module EchoSpec {
  import opened OnlineStatistics

  /** The gap between each arrival and the one before it, in arrival order. */
  function Gaps(arrivals: seq<int>): (r: seq<int>)
    ensures |r| == if arrivals == [] then 0 else |arrivals| - 1
  {
    if |arrivals| < 2 then []
    else Gaps(arrivals[..|arrivals| - 1]) + [arrivals[|arrivals| - 1] - arrivals[|arrivals| - 2]]
  }

  /** Gap i is the time from arrival i to arrival i + 1. */
  lemma {:induction false} GapsAreDifferences(arrivals: seq<int>)
    ensures forall i :: 0 <= i < |Gaps(arrivals)| ==> Gaps(arrivals)[i] == arrivals[i + 1] - arrivals[i]
  {
    if |arrivals| >= 2 {
      var t := arrivals[..|arrivals| - 1];
      GapsAreDifferences(t);
      assert forall i :: 0 <= i < |t| ==> t[i] == arrivals[i];
    }
  }

  /** A new arrival adds one gap, from the latest arrival to it. */
  lemma {:induction false} GapsAppend(arrivals: seq<int>, t: int)
    requires arrivals != []
    ensures Gaps(arrivals + [t]) == Gaps(arrivals) + [t - arrivals[|arrivals| - 1]]
  {
    var a := arrivals + [t];
    assert a[..|a| - 1] == arrivals;
    assert a[|a| - 2] == arrivals[|arrivals| - 1];
  }

  /**
   * The receipt counter counts the arrivals, the previous arrival time is the
   * latest one, and the statistics have seen exactly the gaps.
   */
  ghost predicate ArrivalsAgree(recvCount: nat, havePrev: bool, prevTp: int, arrivals: seq<int>,
                                samples: seq<real>)
  {
    && recvCount == |arrivals|
    && havePrev == (arrivals != [])
    && (havePrev ==> prevTp == arrivals[|arrivals| - 1])
    && samples == AsReals(Gaps(arrivals))
  }

  /**
   * One parsed request at time t: the count rises by one, a gap t - prevTp
   * is recorded unless it is the first request, and t becomes the previous
   * arrival.
   */
  lemma ArrivalStep(recvCount: nat, havePrev: bool, prevTp: int, arrivals: seq<int>, samples: seq<real>, t: int)
    requires ArrivalsAgree(recvCount, havePrev, prevTp, arrivals, samples)
    ensures havePrev ==>
              ArrivalsAgree(recvCount + 1, true, t, arrivals + [t], samples + [(t - prevTp) as real])
    ensures !havePrev ==> ArrivalsAgree(recvCount + 1, true, t, arrivals + [t], samples)
  {
    if havePrev {
      GapsAppend(arrivals, t);
      AsRealsAppend(Gaps(arrivals), t - prevTp);
    } else {
      assert arrivals + [t] == [t];
    }
  }
}
