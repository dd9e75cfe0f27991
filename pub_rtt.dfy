/**
 * The request sender of the round-trip benchmark: startup checks, send
 * pacing, the in-flight tracker that the ack callback and the timeout sweep
 * update, the pending count and the percentile used in the final report.
 * Clock readings are integer nanoseconds passed in by the caller; each
 * mutex-guarded region is one method call.
 */
module PubRtt {
  import opened SenderSpec
  import opened Wire
  import opened OnlineStatistics
  import opened SeqOrder
  import opened InflightSpec
  import opened Inflight

  datatype ConfigError = RateNotPositive | PayloadTooSmall

  /** The outcome of the startup checks: the run goes ahead, or stops with the first failed check. */
  datatype ConfigCheck = Accepted | Rejected(reason: ConfigError)

  /** The startup checks on the rate and the payload size, rate first. */
  function CheckConfig(rateHz: int, payloadBytes: int): (r: ConfigCheck)
    ensures r == Accepted <==> rateHz > 0 && payloadBytes >= ReqHeaderSize
    ensures rateHz <= 0 ==> r == Rejected(RateNotPositive)
    ensures rateHz > 0 && payloadBytes < ReqHeaderSize ==> r == Rejected(PayloadTooSmall)
  {
    if rateHz <= 0 then Rejected(RateNotPositive)
    else if payloadBytes < ReqHeaderSize then Rejected(PayloadTooSmall)
    else Accepted
  }

  /** The send interval in whole microseconds: one second divided by the rate, truncated. */
  function IntervalUs(rateHz: int): (r: nat)
    requires rateHz > 0
    ensures r * rateHz <= 1000000 < (r + 1) * rateHz
  {
    1000000 / rateHz
  }

  ghost predicate Sorted(s: seq<int>) {
    forall i, j :: 0 <= i <= j < |s| ==> s[i] <= s[j]
  }

  /** The index floor(p * (n - 1)) used for a fraction strictly between 0 and 1. */
  function PercentileIndex(n: nat, p01: real): (i: nat)
    requires n > 0 && 0.0 < p01 < 1.0
    ensures i < n
  {
    var idx := p01 * (n - 1) as real;
    assert 0.0 <= idx <= (n - 1) as real by {
      assert (1.0 - p01) * (n - 1) as real >= 0.0;
    }
    idx.Floor
  }

  /** percentile_sorted: 0 for no samples, clamped at both ends, otherwise the floor index. */
  function PercentileSorted(sorted: seq<int>, p01: real): (r: int)
    ensures sorted == [] ==> r == 0
    ensures sorted != [] ==> r in sorted
    ensures sorted != [] && p01 <= 0.0 ==> r == sorted[0]
    ensures sorted != [] && p01 >= 1.0 ==> r == sorted[|sorted| - 1]
  {
    if sorted == [] then 0
    else if p01 <= 0.0 then sorted[0]
    else if p01 >= 1.0 then sorted[|sorted| - 1]
    else sorted[PercentileIndex(|sorted|, p01)]
  }

  /** On sorted samples every percentile lies between the minimum and the maximum. */
  lemma PercentileWithinRange(sorted: seq<int>, p01: real)
    requires Sorted(sorted) && sorted != []
    ensures sorted[0] <= PercentileSorted(sorted, p01) <= sorted[|sorted| - 1]
  {
  }

  /** On sorted samples a larger fraction never gives a smaller percentile. */
  lemma PercentileMonotone(sorted: seq<int>, p: real, q: real)
    requires Sorted(sorted) && p <= q
    ensures PercentileSorted(sorted, p) <= PercentileSorted(sorted, q)
  {
    if sorted != [] && 0.0 < p && q < 1.0 {
      var n := |sorted|;
      ScaleMonotone(p, q, (n - 1) as real);
      FloorMonotone(p * (n - 1) as real, q * (n - 1) as real);
    }
  }

  /** Scaling by a non-negative factor keeps the order. */
  lemma ScaleMonotone(a: real, b: real, k: real)
    requires a <= b && k >= 0.0
    ensures a * k <= b * k
  {
    assert b * k - a * k == (b - a) * k;
  }

  /** The truncation to an index keeps the order. */
  lemma FloorMonotone(x: real, y: real)
    requires x <= y
    ensures x.Floor <= y.Floor
  {
  }

  /** P50 of [1, 2, 3, 4, 5] is 3. */
  lemma PercentileExample()
    ensures PercentileSorted([1, 2, 3, 4, 5], 0.5) == 3
  {
    assert PercentileIndex(5, 0.5) == 2;
  }

  /**
   * The sender's shared state: the in-flight table, the counters, the RTT
   * samples and their running statistics, and the out-of-order fields of
   * the ack callback. Each method is one region the sender runs under its
   * mutex; the send loop's deadline is a local of the loop, passed in and
   * returned by SendIteration.
   */
  class RttTracker {
    const count: u64
    const timeoutMs: int
    const payloadBytes: nat
    const intervalNs: nat
    const startTp: int
    const table: InflightTable
    const rttStats: OnlineStats

    /** The RTT of every matched ack, in nanoseconds, in arrival order. */
    var rttSamples: seq<int>
    var ackReceived: nat
    var timeouts: nat
    var outOfOrder: nat
    var lastAckSeq: u64
    var haveLastAckSeq: bool

    /** Every decoded ack sequence number, in arrival order. */
    ghost var ackSeqs: seq<nat>

    function TimeoutNs(): int {
      timeoutMs * 1000000
    }

    /**
     * The invariant at every lock release: the table is valid, the counters
     * are exact counts over its states, the statistics summarize exactly the
     * RTT samples, the out-of-order fields follow the ack history, and no
     * request went out before its deadline.
     */
    ghost predicate Valid()
      reads this, table, table.state, table.sendTs, rttStats
    {
      && table.Valid() && rttStats.Valid()
      && table.count == count && payloadBytes >= ReqHeaderSize && (count > 0 ==> table.sent <= count)
      && Tallies(table.status, ackReceived, timeouts, rttSamples)
      && SamplesAgree(rttSamples, rttStats.samples)
      && OrderAgrees(outOfOrder, ackSeqs, haveLastAckSeq, lastAckSeq)
      && Paced(table.sentAt, startTp, intervalNs)
    }

    /** Setup after the startup checks have passed. */
    constructor (count: u64, rateHz: int, payloadBytes: nat, timeoutMs: int, startTp: int)
      requires CheckConfig(rateHz, payloadBytes) == Accepted
      ensures Valid() && fresh(table) && fresh(table.state) && fresh(table.sendTs) && fresh(rttStats)
      ensures this.count == count && this.timeoutMs == timeoutMs && this.payloadBytes == payloadBytes
      ensures intervalNs == IntervalUs(rateHz) * 1000 && this.startTp == startTp
      ensures table.sent == 0 && table.inflight == [] && ackReceived == 0 && timeouts == 0
      ensures outOfOrder == 0 && rttSamples == [] && ackSeqs == [] && !haveLastAckSeq
    {
      this.count := count;
      this.timeoutMs := timeoutMs;
      this.payloadBytes := payloadBytes;
      intervalNs := IntervalUs(rateHz) * 1000;
      this.startTp := startTp;
      table := new InflightTable(count);
      rttStats := new OnlineStats();
      rttSamples := [];
      ackReceived, timeouts, outOfOrder := 0, 0, 0;
      lastAckSeq, haveLastAckSeq := 0, false;
      ackSeqs := [];
    }

    /**
     * One iteration of the send loop, entered once the deadline nextSend has
     * passed: record the send, build the request, sweep for timeouts, and
     * return the deadline moved on by one interval.
     */
    method SendIteration(nextSend: int, sendTp: int, sendNs: u64, sweepTp: int)
      returns (seqNo: u64, payload: seq<byte>, newNextSend: int)
      requires Valid() && nextSend == startTp + table.sent * intervalNs
      requires count > 0 ==> table.sent < count
      requires table.sent < 0x1_0000_0000_0000_0000
      requires sendTp >= nextSend
      modifies this, table, table.state, table.sendTs
      ensures Valid() && newNextSend == startTp + table.sent * intervalNs
      ensures newNextSend == nextSend + intervalNs
      ensures seqNo == old(table.sent) && table.sent == old(table.sent) + 1
      ensures payload == MakeReqPayloadSized(seqNo, sendNs, payloadBytes)
      ensures table.sentAt == old(table.sentAt) + [sendTp]
      ensures timeoutMs > 0 ==>
                var r := SweepSpec(old(table.status) + [InFlight], old(table.sentAt) + [sendTp],
                                   old(table.inflight) + [seqNo], sweepTp, TimeoutNs());
                table.status == r.status && table.inflight == r.queue && timeouts == old(timeouts) + r.expired
      ensures timeoutMs <= 0 ==>
                && table.status == old(table.status) + [InFlight]
                && table.inflight == old(table.inflight) + [seqNo]
                && timeouts == old(timeouts)
      ensures ackReceived == old(ackReceived) && rttSamples == old(rttSamples) && ackSeqs == old(ackSeqs)
      ensures outOfOrder == old(outOfOrder)
    {
      seqNo := RecordSend(sendTp);
      payload := MakeReqPayloadSized(seqNo, sendNs, payloadBytes);
      SweepTimeouts(sweepTp);
      NextDeadline(startTp, seqNo, intervalNs);
      newNextSend := nextSend + intervalNs;
    }

    /** The locked send bookkeeping: the next sequence number becomes in flight. */
    method RecordSend(sendTp: int) returns (seqNo: u64)
      requires Valid()
      requires count > 0 ==> table.sent < count
      requires table.sent < 0x1_0000_0000_0000_0000
      requires sendTp >= startTp + table.sent * intervalNs
      modifies table, table.state, table.sendTs
      ensures Valid()
      ensures seqNo == old(table.sent) && table.sent == old(table.sent) + 1
      ensures table.status == old(table.status) + [InFlight] && table.sentAt == old(table.sentAt) + [sendTp]
      ensures table.inflight == old(table.inflight) + [seqNo]
    {
      PacedAppend(table.sentAt, startTp, intervalNs, sendTp);
      SendKeepsTallies(table.status, ackReceived, timeouts, rttSamples);
      var s := table.RecordSend(sendTp);
      seqNo := s;
    }

    /**
     * The timeout sweep under the lock (the send loop's and the drain
     * loop's): the table's sweep when the timeout is positive, each expired
     * entry counted once; nothing at all otherwise.
     */
    method SweepTimeouts(now: int)
      requires Valid()
      modifies this, table, table.state
      ensures Valid()
      ensures timeoutMs > 0 ==>
                var r := SweepSpec(old(table.status), old(table.sentAt), old(table.inflight), now, TimeoutNs());
                table.status == r.status && table.inflight == r.queue && timeouts == old(timeouts) + r.expired
      ensures timeoutMs <= 0 ==>
                table.status == old(table.status) && table.inflight == old(table.inflight) && timeouts == old(timeouts)
      ensures table.sent == old(table.sent) && table.sentAt == old(table.sentAt)
      ensures ackReceived == old(ackReceived) && rttSamples == old(rttSamples)
      ensures ackSeqs == old(ackSeqs) && outOfOrder == old(outOfOrder)
    {
      if timeoutMs > 0 {
        SweepKeepsTallies(table.status, ackReceived, timeouts, rttSamples, table.sentAt, table.inflight,
                          now, TimeoutNs());
        var expired := table.Sweep(now, TimeoutNs());
        timeouts := timeouts + expired;
      }
    }

    /**
     * The ack callback after a successful parse: the out-of-order fields are
     * updated for every ack; an ack for an in-flight sequence number then
     * resolves it, counts it, and records its RTT; any other ack stops there.
     */
    method OnAck(ackSeq: u64, nowTp: int)
      requires Valid()
      modifies this, table, table.state, rttStats
      ensures Valid()
      ensures ackSeqs == old(ackSeqs) + [ackSeq]
      ensures outOfOrder == old(outOfOrder) + (if old(haveLastAckSeq) && ackSeq <= old(lastAckSeq) then 1 else 0)
      ensures haveLastAckSeq && lastAckSeq == ackSeq
      ensures Matches(old(table.status), ackSeq) ==>
                && table.status == old(table.status)[ackSeq := Acked]
                && ackReceived == old(ackReceived) + 1
                && |rttSamples| == |old(rttSamples)| + 1
                && rttSamples[|old(rttSamples)|] == nowTp - table.sentAt[ackSeq]
                && rttSamples[..|old(rttSamples)|] == old(rttSamples)
      ensures !Matches(old(table.status), ackSeq) ==>
                table.status == old(table.status) && ackReceived == old(ackReceived)
                && rttSamples == old(rttSamples)
      ensures timeouts == old(timeouts)
      ensures table.sent == old(table.sent) && table.sentAt == old(table.sentAt)
      ensures table.inflight == old(table.inflight)
    {
      NoteAckOrder(ackSeq);
      ResolveAck(ackSeq, nowTp);
    }

    /** The out-of-order check every decoded ack goes through, then the latest sequence number. */
    method NoteAckOrder(ackSeq: u64)
      requires Valid()
      modifies this
      ensures Valid()
      ensures ackSeqs == old(ackSeqs) + [ackSeq]
      ensures outOfOrder == old(outOfOrder) + (if old(haveLastAckSeq) && ackSeq <= old(lastAckSeq) then 1 else 0)
      ensures haveLastAckSeq && lastAckSeq == ackSeq
      ensures ackReceived == old(ackReceived) && rttSamples == old(rttSamples)
      ensures timeouts == old(timeouts)
    {
      OrderStep(outOfOrder, ackSeqs, haveLastAckSeq, lastAckSeq, ackSeq);
      if haveLastAckSeq && ackSeq <= lastAckSeq {
        outOfOrder := outOfOrder + 1;
      }
      lastAckSeq := ackSeq;
      haveLastAckSeq := true;
      ackSeqs := ackSeqs + [ackSeq];
    }

    /** The matching step of the ack callback: only an in-flight sequence number is counted. */
    method ResolveAck(ackSeq: u64, nowTp: int)
      requires Valid()
      modifies this, table, table.state, rttStats
      ensures Valid()
      ensures Matches(old(table.status), ackSeq) ==>
                && table.status == old(table.status)[ackSeq := Acked]
                && ackReceived == old(ackReceived) + 1
                && |rttSamples| == |old(rttSamples)| + 1
                && rttSamples[|old(rttSamples)|] == nowTp - table.sentAt[ackSeq]
                && rttSamples[..|old(rttSamples)|] == old(rttSamples)
      ensures !Matches(old(table.status), ackSeq) ==>
                table.status == old(table.status) && ackReceived == old(ackReceived)
                && rttSamples == old(rttSamples)
      ensures timeouts == old(timeouts)
      ensures ackSeqs == old(ackSeqs) && outOfOrder == old(outOfOrder)
      ensures haveLastAckSeq == old(haveLastAckSeq) && lastAckSeq == old(lastAckSeq)
      ensures table.sent == old(table.sent) && table.sentAt == old(table.sentAt)
      ensures table.inflight == old(table.inflight)
    {
      ghost var st0 := table.status;
      var matched, sentTime := table.Acknowledge(ackSeq);
      if !matched {
        return;
      }
      AckKeepsTallies(st0, ackReceived, timeouts, rttSamples, ackSeq, nowTp - sentTime);
      RecordRtt(ackSeq, sentTime, nowTp);
    }

    /** A matched ack is counted and its RTT goes to the samples and to the statistics. */
    method RecordRtt(ackSeq: nat, sentTime: int, nowTp: int)
      requires ackSeq < |table.sentAt| && sentTime == table.sentAt[ackSeq]
      requires rttStats.Valid() && SamplesAgree(rttSamples, rttStats.samples)
      modifies this, rttStats
      ensures rttStats.Valid() && SamplesAgree(rttSamples, rttStats.samples)
      ensures ackReceived == old(ackReceived) + 1 && |rttSamples| == |old(rttSamples)| + 1
      ensures rttSamples[|old(rttSamples)|] == nowTp - table.sentAt[ackSeq]
      ensures rttSamples[..|old(rttSamples)|] == old(rttSamples)
      ensures timeouts == old(timeouts) && ackSeqs == old(ackSeqs)
      ensures outOfOrder == old(outOfOrder) && haveLastAckSeq == old(haveLastAckSeq)
      ensures lastAckSeq == old(lastAckSeq)
    {
      ackReceived := ackReceived + 1;
      var rtt := nowTp - sentTime;
      SampleKeepsAgreement(rttSamples, rttStats.samples, rtt);
      rttStats.Add(rtt as real);
      rttSamples := rttSamples + [rtt];
    }

    /** The whole ack callback: a payload too short for an ack header changes nothing. */
    method OnAckPayload(payload: seq<byte>, nowTp: int)
      requires Valid()
      modifies this, table, table.state, rttStats
      ensures Valid()
      ensures |payload| < AckHeaderSize ==>
                && ackSeqs == old(ackSeqs) && outOfOrder == old(outOfOrder)
                && haveLastAckSeq == old(haveLastAckSeq) && lastAckSeq == old(lastAckSeq)
                && ackReceived == old(ackReceived) && rttSamples == old(rttSamples)
                && table.status == old(table.status)
      ensures |payload| >= AckHeaderSize ==>
                var ackSeq := ParseAckPayload(payload).value.seqNo;
                && ackSeqs == old(ackSeqs) + [ackSeq]
                && outOfOrder == old(outOfOrder) + (if old(haveLastAckSeq) && ackSeq <= old(lastAckSeq) then 1 else 0)
                && haveLastAckSeq && lastAckSeq == ackSeq
                && (Matches(old(table.status), ackSeq) ==>
                      && table.status == old(table.status)[ackSeq := Acked]
                      && ackReceived == old(ackReceived) + 1
                      && |rttSamples| == |old(rttSamples)| + 1
                      && rttSamples[|old(rttSamples)|] == nowTp - table.sentAt[ackSeq]
                      && rttSamples[..|old(rttSamples)|] == old(rttSamples))
                && (!Matches(old(table.status), ackSeq) ==>
                      table.status == old(table.status) && ackReceived == old(ackReceived)
                      && rttSamples == old(rttSamples))
      ensures timeouts == old(timeouts)
      ensures table.sent == old(table.sent) && table.sentAt == old(table.sentAt)
      ensures table.inflight == old(table.inflight)
    {
      var ack := ParseAckPayload(payload);
      if ack.None? {
        return;
      }
      OnAck(ack.value.seqNo, nowTp);
    }

    /**
     * One pass of the drain phase, which runs only with a positive timeout:
     * a sweep, then whether the FIFO is empty. An empty FIFO means nothing
     * is left in flight.
     */
    method DrainPass(now: int) returns (drained: bool)
      requires Valid() && timeoutMs > 0
      modifies this, table, table.state
      ensures Valid()
      ensures var r := SweepSpec(old(table.status), old(table.sentAt), old(table.inflight), now, TimeoutNs());
              table.status == r.status && table.inflight == r.queue && timeouts == old(timeouts) + r.expired
      ensures table.sent == old(table.sent) && table.sentAt == old(table.sentAt)
      ensures ackReceived == old(ackReceived) && rttSamples == old(rttSamples)
      ensures ackSeqs == old(ackSeqs) && outOfOrder == old(outOfOrder)
      ensures drained <==> table.inflight == []
      ensures drained ==> CountOf(table.status, InFlight) == 0
    {
      SweepTimeouts(now);
      drained := table.inflight == [];
      if drained {
        CountNone(table.status, InFlight);
      }
    }

    /**
     * The pending count of the final report; every request sent is acked,
     * timed out or still pending, each exactly once.
     */
    method CountPending() returns (pending: nat)
      requires Valid()
      ensures pending == CountOf(table.status, InFlight)
      ensures ackReceived + timeouts + pending == table.sent
    {
      pending := table.CountPending();
      CountPartition(table.status);
    }
  }
}
