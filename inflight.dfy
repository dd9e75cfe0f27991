/**
 * The sender's in-flight bookkeeping as it is stored: in count mode
 * (count > 0) a state table and a send-time table indexed by sequence
 * number, in duration mode (count == 0) a map from in-flight sequence
 * numbers to send times, and in both modes the FIFO of sent sequence
 * numbers the timeout sweep walks. The ghost status and sentAt are the
 * abstract view both modes share.
 */
module Inflight {
  import opened InflightSpec

  class InflightTable {
    /** The configured request count; 0 selects duration mode. */
    const count: nat
    /** Count mode: the send time of each sequence number. */
    const sendTs: array<int>
    /** Count mode: the state of each sequence number. */
    const state: array<SeqState>
    /** Duration mode: the send time of each sequence number still in flight. */
    var sendMap: map<nat, int>
    /** Sent sequence numbers in send order; resolved ones leave only from the front. */
    var inflight: seq<nat>
    /** The number of requests sent, which is also the next sequence number. */
    var sent: nat

    /** The state of every sequence number sent so far. */
    ghost var status: seq<SeqState>
    /** The send time of every sequence number sent so far. */
    ghost var sentAt: seq<int>

    ghost predicate Valid()
      reads this, state, sendTs
    {
      |status| == sent && Storage(count, state[..], sendTs[..], sendMap, status, sentAt, inflight)
    }

    /** The tables sized for count mode (all unsent), or empty for duration mode. */
    constructor (count: nat)
      ensures Valid() && fresh(state) && fresh(sendTs)
      ensures this.count == count && sent == 0 && status == [] && sentAt == [] && inflight == []
    {
      this.count := count;
      sendTs := new int[count](_ => 0);
      state := new SeqState[count](_ => Unsent);
      sendMap, inflight, sent := map[], [], 0;
      status, sentAt := [], [];
      new;
      assert count == 0 ==> state[..] == [] && sendTs[..] == [];
    }

    /** The locked send step: the next sequence number is stamped, marked in flight and queued. */
    method RecordSend(sendTp: int) returns (seqNo: nat)
      requires Valid() && (count > 0 ==> sent < count)
      modifies this, state, sendTs
      ensures Valid()
      ensures seqNo == old(sent) && sent == old(sent) + 1
      ensures status == old(status) + [InFlight] && sentAt == old(sentAt) + [sendTp]
      ensures inflight == old(inflight) + [seqNo]
    {
      seqNo := sent;
      ghost var table, times := state[..], sendTs[..];
      SendKeepsStorage(count, table, times, sendMap, status, sentAt, inflight, sendTp);
      if count > 0 {
        sendTs[seqNo] := sendTp;
        state[seqNo] := InFlight;
        assert state[..] == table[seqNo := InFlight];
        assert sendTs[..] == times[seqNo := sendTp];
      } else {
        sendMap := sendMap[seqNo := sendTp];
      }
      sent, inflight := sent + 1, inflight + [seqNo];
      status, sentAt := status + [InFlight], sentAt + [sendTp];
    }

    /**
     * The lookup of the ack callback: a sequence number beyond the table,
     * not in flight, or missing from the map is not matched; a matched one
     * becomes acked and its send time is returned.
     */
    method Acknowledge(seqNo: nat) returns (matched: bool, sentTime: int)
      requires Valid()
      modifies this, state
      ensures Valid()
      ensures matched <==> Matches(old(status), seqNo)
      ensures matched ==> status == old(status)[seqNo := Acked] && sentTime == sentAt[seqNo]
      ensures !matched ==> status == old(status)
      ensures sent == old(sent) && sentAt == old(sentAt) && inflight == old(inflight)
    {
      ghost var table := state[..];
      if count > 0 {
        if seqNo >= count {
          return false, 0;
        }
        if state[seqNo] != InFlight {
          return false, 0;
        }
        ResolveKeepsStorage(count, table, sendTs[..], sendMap, status, sentAt, inflight, seqNo, Acked);
        sentTime := sendTs[seqNo];
        state[seqNo] := Acked;
        assert state[..] == table[seqNo := Acked];
      } else {
        if seqNo !in sendMap {
          return false, 0;
        }
        ResolveKeepsStorage(count, table, sendTs[..], sendMap, status, sentAt, inflight, seqNo, Acked);
        sentTime := sendMap[seqNo];
        sendMap := sendMap - {seqNo};
      }
      status := status[seqNo := Acked];
      matched := true;
    }

    /**
     * The timeout sweep: walk the FIFO from the front, drop resolved
     * entries, time out in-flight entries older than timeoutNs, and stop at
     * the first in-flight entry that is not. Returns how many timed out.
     */
    method Sweep(now: int, timeoutNs: int) returns (expired: nat)
      requires Valid()
      modifies this, state
      ensures Valid()
      ensures var r := SweepSpec(old(status), old(sentAt), old(inflight), now, timeoutNs);
              status == r.status && inflight == r.queue && expired == r.expired
      ensures sent == old(sent) && sentAt == old(sentAt)
    {
      ghost var target := SweepSpec(status, sentAt, inflight, now, timeoutNs);
      expired := 0;
      while inflight != []
        invariant Valid()
        invariant sent == old(sent) && sentAt == old(sentAt)
        invariant var r := SweepSpec(status, sentAt, inflight, now, timeoutNs);
                  r.status == target.status && r.queue == target.queue
                  && expired + r.expired == target.expired
        decreases |inflight|
      {
        var done, timedOut;
        if count > 0 {
          done, timedOut := SweepTableFront(now, timeoutNs);
        } else {
          done, timedOut := SweepMapFront(now, timeoutNs);
        }
        if timedOut {
          expired := expired + 1;
        }
        if done {
          break;
        }
      }
    }

    /**
     * One turn of the sweep on the front entry, count mode: an acked or
     * timed-out entry is dropped, an expired one timed out and dropped, and
     * an in-flight one still within the timeout ends the sweep, which then
     * has nothing left to do.
     */
    method SweepTableFront(now: int, timeoutNs: int) returns (done: bool, timedOut: bool)
      requires Valid() && inflight != [] && count > 0
      modifies this, state
      ensures Valid() && sent == old(sent) && sentAt == old(sentAt)
      ensures var r0 := SweepSpec(old(status), sentAt, old(inflight), now, timeoutNs);
              var r := SweepSpec(status, sentAt, inflight, now, timeoutNs);
              r.status == r0.status && r.queue == r0.queue
              && (if timedOut then 1 else 0) + r.expired == r0.expired
      ensures done ==> SweepSpec(status, sentAt, inflight, now, timeoutNs) == SweepResult(status, inflight, 0)
      ensures !done ==> |inflight| < |old(inflight)|
    {
      var s := inflight[0];
      ghost var table := state[..];
      var st := state[s];
      if st == Acked || st == TimedOut {
        PopKeepsStorage(count, table, sendTs[..], sendMap, status, sentAt, inflight);
        inflight := inflight[1..];
        return false, false;
      }
      var age := now - sendTs[s];
      if age > timeoutNs {
        ResolveKeepsStorage(count, table, sendTs[..], sendMap, status, sentAt, inflight, s, TimedOut);
        state[s] := TimedOut;
        assert state[..] == table[s := TimedOut];
        Expire(s);
        return false, true;
      }
      return true, false;
    }

    /**
     * One turn of the sweep on the front entry, duration mode: an entry no
     * longer in the map is dropped, an expired one erased and dropped, and
     * one still within the timeout ends the sweep.
     */
    method SweepMapFront(now: int, timeoutNs: int) returns (done: bool, timedOut: bool)
      requires Valid() && inflight != [] && count == 0
      modifies this
      ensures Valid() && sent == old(sent) && sentAt == old(sentAt)
      ensures var r0 := SweepSpec(old(status), sentAt, old(inflight), now, timeoutNs);
              var r := SweepSpec(status, sentAt, inflight, now, timeoutNs);
              r.status == r0.status && r.queue == r0.queue
              && (if timedOut then 1 else 0) + r.expired == r0.expired
      ensures done ==> SweepSpec(status, sentAt, inflight, now, timeoutNs) == SweepResult(status, inflight, 0)
      ensures !done ==> |inflight| < |old(inflight)|
    {
      var s := inflight[0];
      if s !in sendMap {
        PopKeepsStorage(count, state[..], sendTs[..], sendMap, status, sentAt, inflight);
        inflight := inflight[1..];
        return false, false;
      }
      var age := now - sendMap[s];
      if age > timeoutNs {
        ResolveKeepsStorage(count, state[..], sendTs[..], sendMap, status, sentAt, inflight, s, TimedOut);
        sendMap := sendMap - {s};
        Expire(s);
        return false, true;
      }
      return true, false;
    }

    /** The front entry s has just timed out in the storage: record it and pop it. */
    method Expire(s: nat)
      requires inflight != [] && s == inflight[0] && s < |status|
      requires Storage(count, state[..], sendTs[..], sendMap, status[s := TimedOut], sentAt, inflight)
      requires |status| == sent
      modifies this
      ensures Valid()
      ensures status == old(status)[s := TimedOut] && inflight == old(inflight)[1..]
      ensures sendMap == old(sendMap) && sent == old(sent) && sentAt == old(sentAt)
    {
      status := status[s := TimedOut];
      PopKeepsStorage(count, state[..], sendTs[..], sendMap, status, sentAt, inflight);
      inflight := inflight[1..];
    }

    /** The pending count: in-flight entries of the state table, or the size of the map. */
    method CountPending() returns (pending: nat)
      requires Valid()
      ensures pending == CountOf(status, InFlight)
    {
      if count > 0 {
        pending := 0;
        for i := 0 to state.Length
          invariant pending == CountOf(state[..i], InFlight)
        {
          assert state[..i + 1] == state[..i] + [state[i]];
          CountAppend(state[..i], state[i], InFlight);
          if state[i] == InFlight {
            pending := pending + 1;
          }
        }
        assert state[..state.Length] == state[..];
        TablePending(state[..], sendTs[..], status, sentAt);
      } else {
        pending := |sendMap|;
      }
    }
  }
}
