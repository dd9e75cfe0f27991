/**
 * The responder's request callback: every request that parses is counted,
 * feeds the inter-arrival statistics (all but the first), goes through the
 * out-of-order check, and is answered with an ack echoing its sequence
 * number. Each callback is one step under the responder's mutex; the clock
 * readings are parameters.
 */
module EchoAck {
  import opened Wire
  import opened OnlineStatistics
  import opened SeqOrder
  import opened EchoSpec

  class Responder {
    var recvCount: nat
    var havePrev: bool
    var prevTp: int
    /** Statistics over the gaps between consecutive arrivals, in nanoseconds. */
    const interarrival: OnlineStats
    var outOfOrder: nat
    var lastSeq: u64
    var haveLastSeq: bool

    /** The arrival time of every parsed request, in order. */
    ghost var arrivals: seq<int>
    /** The sequence number of every parsed request, in order. */
    ghost var seqs: seq<nat>

    /**
     * The counter and the previous arrival follow the arrivals, the
     * statistics have seen exactly their gaps, and the out-of-order fields
     * follow the sequence numbers.
     */
    ghost predicate Valid()
      reads this, interarrival
    {
      && interarrival.Valid()
      && ArrivalsAgree(recvCount, havePrev, prevTp, arrivals, interarrival.samples)
      && OrderAgrees(outOfOrder, seqs, haveLastSeq, lastSeq)
    }

    constructor ()
      ensures Valid() && fresh(interarrival)
      ensures recvCount == 0 && outOfOrder == 0 && arrivals == [] && seqs == []
    {
      recvCount, havePrev, prevTp := 0, false, 0;
      interarrival := new OnlineStats();
      outOfOrder, lastSeq, haveLastSeq := 0, 0, false;
      arrivals, seqs := [], [];
    }

    /**
     * The whole callback for a payload received at nowTp; srvRecvNs and
     * srvSendNs are the two clock readings taken after the locked region.
     * A payload too short for a request header is dropped with no ack and
     * no change; any other is recorded and answered.
     */
    method OnRequest(payload: seq<byte>, nowTp: int, srvRecvNs: u64, srvSendNs: u64)
      returns (ack: Option<seq<byte>>)
      requires Valid()
      modifies this, interarrival
      ensures Valid()
      ensures |payload| < ReqHeaderSize ==>
                && ack == None
                && recvCount == old(recvCount) && outOfOrder == old(outOfOrder)
                && arrivals == old(arrivals) && seqs == old(seqs)
                && interarrival.samples == old(interarrival.samples)
      ensures |payload| >= ReqHeaderSize ==>
                var req := ParseReqPayload(payload).value;
                && ack == Some(MakeAckPayload(req.seqNo, srvRecvNs, srvSendNs))
                && recvCount == old(recvCount) + 1
                && |arrivals| == |old(arrivals)| + 1 && arrivals[|old(arrivals)|] == nowTp
                && arrivals[..|old(arrivals)|] == old(arrivals)
                && |seqs| == |old(seqs)| + 1 && seqs[|old(seqs)|] == req.seqNo
                && seqs[..|old(seqs)|] == old(seqs)
                && interarrival.n == recvCount - 1
                && outOfOrder == old(outOfOrder) + (if old(haveLastSeq) && req.seqNo <= old(lastSeq) then 1 else 0)
                && haveLastSeq && lastSeq == req.seqNo
                && prevTp == nowTp
                && (old(havePrev) ==>
                      && |interarrival.samples| == |old(interarrival.samples)| + 1
                      && interarrival.samples[|old(interarrival.samples)|] == (nowTp - old(prevTp)) as real
                      && interarrival.samples[..|old(interarrival.samples)|] == old(interarrival.samples))
                && (!old(havePrev) ==> interarrival.samples == old(interarrival.samples))
    {
      var req := ParseReqPayload(payload);
      if req.None? {
        return None;
      }
      RecordArrival(nowTp);
      NoteOrder(req.value.seqNo);
      ack := Some(MakeAckPayload(req.value.seqNo, srvRecvNs, srvSendNs));
    }

    /**
     * The receipt count and the inter-arrival gap: the first request only
     * marks that there is a previous arrival; every later one adds the gap
     * since the previous arrival to the statistics.
     */
    method RecordArrival(nowTp: int)
      requires Valid()
      modifies this, interarrival
      ensures Valid()
      ensures recvCount == old(recvCount) + 1 && havePrev && prevTp == nowTp
      ensures interarrival.n == recvCount - 1
      ensures old(havePrev) ==>
                interarrival.samples == old(interarrival.samples) + [(nowTp - old(prevTp)) as real]
      ensures !old(havePrev) ==> interarrival.samples == old(interarrival.samples)
      ensures arrivals == old(arrivals) + [nowTp]
      ensures seqs == old(seqs) && outOfOrder == old(outOfOrder)
      ensures lastSeq == old(lastSeq) && haveLastSeq == old(haveLastSeq)
    {
      ArrivalStep(recvCount, havePrev, prevTp, arrivals, interarrival.samples, nowTp);
      recvCount := recvCount + 1;
      if havePrev {
        interarrival.Add((nowTp - prevTp) as real);
      } else {
        havePrev := true;
      }
      prevTp := nowTp;
      arrivals := arrivals + [nowTp];
    }

    /** The out-of-order check, then the latest sequence number, overwritten unconditionally. */
    method NoteOrder(seqNo: u64)
      requires Valid()
      modifies this
      ensures Valid()
      ensures outOfOrder == old(outOfOrder) + (if old(haveLastSeq) && seqNo <= old(lastSeq) then 1 else 0)
      ensures haveLastSeq && lastSeq == seqNo
      ensures seqs == old(seqs) + [seqNo]
      ensures recvCount == old(recvCount) && arrivals == old(arrivals)
    {
      OrderStep(outOfOrder, seqs, haveLastSeq, lastSeq, seqNo);
      if haveLastSeq && seqNo <= lastSeq {
        outOfOrder := outOfOrder + 1;
      }
      lastSeq := seqNo;
      haveLastSeq := true;
      seqs := seqs + [seqNo];
    }
  }
}
