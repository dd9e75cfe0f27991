/**
 * The abstract view of the sender's in-flight bookkeeping: one state per
 * sequence number, counts over those states, and the timeout sweep as a pure
 * function over the state table and the FIFO of pending sequence numbers.
 */
module InflightSpec {

  /** Per-sequence state; the source stores these as the codes 0, 1, 2 and 3. */
  datatype SeqState = Unsent | InFlight | Acked | TimedOut

  /** How many sequence numbers are in state v. */
  function CountOf(s: seq<SeqState>, v: SeqState): nat {
    if s == [] then 0 else CountOf(s[..|s| - 1], v) + (if s[|s| - 1] == v then 1 else 0)
  }

  lemma CountAppend(s: seq<SeqState>, x: SeqState, v: SeqState)
    ensures CountOf(s + [x], v) == CountOf(s, v) + (if x == v then 1 else 0)
  {
    assert (s + [x])[..|s|] == s;
  }

  /** Changing one entry moves at most one unit between the counts. */
  lemma {:induction false} CountUpdate(s: seq<SeqState>, k: nat, w: SeqState, v: SeqState)
    requires k < |s|
    ensures CountOf(s[k := w], v)
         == CountOf(s, v) - (if s[k] == v then 1 else 0) + (if w == v then 1 else 0)
  {
    var t := s[..|s| - 1];
    if k < |s| - 1 {
      CountUpdate(t, k, w, v);
      assert s[k := w][..|s| - 1] == t[k := w];
    } else {
      assert s[k := w][..|s| - 1] == t;
    }
  }

  lemma {:induction false} CountConcat(a: seq<SeqState>, b: seq<SeqState>, v: SeqState)
    ensures CountOf(a + b, v) == CountOf(a, v) + CountOf(b, v)
  {
    if b != [] {
      var ab, b' := a + b, b[..|b| - 1];
      CountConcat(a, b', v);
      assert ab[..|ab| - 1] == a + b';
      assert CountOf(ab, v) == CountOf(a + b', v) + (if b[|b| - 1] == v then 1 else 0);
    } else {
      assert a + b == a;
    }
  }

  lemma {:induction false} CountNone(s: seq<SeqState>, v: SeqState)
    requires forall i :: 0 <= i < |s| ==> s[i] != v
    ensures CountOf(s, v) == 0
  {
    if s != [] {
      CountNone(s[..|s| - 1], v);
    }
  }

  /** Once every entry has been sent, each is acked, timed out or still in flight. */
  lemma {:induction false} CountPartition(s: seq<SeqState>)
    requires forall i :: 0 <= i < |s| ==> s[i] != Unsent
    ensures CountOf(s, Acked) + CountOf(s, TimedOut) + CountOf(s, InFlight) == |s|
  {
    if s != [] {
      CountPartition(s[..|s| - 1]);
    }
  }

  predicate StrictlyIncreasing(q: seq<nat>) {
    forall i, j :: 0 <= i < j < |q| ==> q[i] < q[j]
  }

  predicate QueueWithin(q: seq<nat>, n: nat) {
    forall j :: 0 <= j < |q| ==> q[j] < n
  }

  /** An ack for seqNo matches when its sequence number has been sent and is still in flight. */
  predicate Matches(status: seq<SeqState>, seqNo: nat) {
    seqNo < |status| && status[seqNo] == InFlight
  }

  /** Every recorded sequence number has been sent. */
  predicate AllSent(status: seq<SeqState>) {
    forall i :: 0 <= i < |status| ==> status[i] != Unsent
  }

  /**
   * Count mode: the fixed-size state and send-time tables hold the abstract
   * view in their first |status| slots and Unsent after them.
   */
  predicate TableAgrees(table: seq<SeqState>, times: seq<int>, status: seq<SeqState>, sentAt: seq<int>) {
    && |table| == |times| && |status| == |sentAt| <= |table|
    && (forall i :: 0 <= i < |status| ==> table[i] == status[i] && times[i] == sentAt[i])
    && (forall i :: |status| <= i < |table| ==> table[i] == Unsent)
  }

  /** Duration mode: the map holds exactly the in-flight sequence numbers, with their send times. */
  predicate MapAgrees(m: map<nat, int>, status: seq<SeqState>, sentAt: seq<int>) {
    && |status| == |sentAt|
    && (forall k :: k in m ==> k < |status| && status[k] == InFlight && m[k] == sentAt[k])
    && (forall i :: 0 <= i < |status| && status[i] == InFlight ==> i in m)
    && |m| == CountOf(status, InFlight)
  }

  /** The FIFO is in send order, holds only sent numbers, and holds every in-flight one. */
  predicate QueueCovers(q: seq<nat>, status: seq<SeqState>) {
    && StrictlyIncreasing(q) && QueueWithin(q, |status|)
    && (forall i :: 0 <= i < |status| && status[i] == InFlight ==> i in q)
  }

  /** Recording a send in the next free table slot keeps the tables in agreement. */
  lemma SendKeepsTable(table: seq<SeqState>, times: seq<int>, status: seq<SeqState>, sentAt: seq<int>, tp: int)
    requires TableAgrees(table, times, status, sentAt) && |status| < |table|
    ensures TableAgrees(table[|status| := InFlight], times[|status| := tp], status + [InFlight], sentAt + [tp])
  {
  }

  /** Adding the next sequence number to the map keeps the map in agreement. */
  lemma SendKeepsMap(m: map<nat, int>, status: seq<SeqState>, sentAt: seq<int>, tp: int)
    requires MapAgrees(m, status, sentAt)
    ensures MapAgrees(m[|status| := tp], status + [InFlight], sentAt + [tp])
  {
    CountAppend(status, InFlight, InFlight);
    assert |status| !in m;
  }

  /** Pushing the next sequence number on the back keeps the FIFO valid. */
  lemma {:induction false} SendKeepsQueue(q: seq<nat>, status: seq<SeqState>)
    requires QueueCovers(q, status)
    ensures QueueCovers(q + [|status|], status + [InFlight])
  {
    var q' := q + [|status|];
    forall i | 0 <= i < |status| + 1 && (status + [InFlight])[i] == InFlight
      ensures i in q'
    {
      if i < |status| {
        assert i in q;
        var j :| 0 <= j < |q| && q[j] == i;
        assert q'[j] == i;
      } else {
        assert q'[|q|] == i;
      }
    }
  }

  /** Resolving the in-flight entry k in the table keeps the tables in agreement. */
  lemma ResolveKeepsTable(table: seq<SeqState>, times: seq<int>, status: seq<SeqState>, sentAt: seq<int>,
                          k: nat, v: SeqState)
    requires TableAgrees(table, times, status, sentAt) && k < |status| && v != Unsent
    ensures TableAgrees(table[k := v], times, status[k := v], sentAt)
  {
  }

  /** Erasing the in-flight entry k from the map and resolving it keeps the map in agreement. */
  lemma ResolveKeepsMap(m: map<nat, int>, status: seq<SeqState>, sentAt: seq<int>, k: nat, v: SeqState)
    requires MapAgrees(m, status, sentAt) && k < |status| && status[k] == InFlight && v != InFlight
    ensures MapAgrees(m - {k}, status[k := v], sentAt)
  {
    CountUpdate(status, k, v, InFlight);
    assert k in m;
    assert |m - {k}| == |m| - 1;
  }

  /** Resolving an entry never makes the FIFO miss an in-flight number. */
  lemma ResolveKeepsQueue(q: seq<nat>, status: seq<SeqState>, k: nat, v: SeqState)
    requires QueueCovers(q, status) && k < |status| && v != InFlight
    ensures QueueCovers(q, status[k := v])
  {
  }

  /** Popping a front entry that is no longer in flight keeps the FIFO valid. */
  lemma PopKeepsQueue(q: seq<nat>, status: seq<SeqState>)
    requires QueueCovers(q, status) && q != [] && status[q[0]] != InFlight
    ensures QueueCovers(q[1..], status)
  {
    forall i | 0 <= i < |status| && status[i] == InFlight
      ensures i in q[1..]
    {
      var j :| 0 <= j < |q| && q[j] == i;
      assert j != 0;
      assert q[1..][j - 1] == i;
    }
  }

  /**
   * The whole in-flight bookkeeping of one mode: count mode (count > 0) keeps
   * the tables and an empty map, duration mode keeps the map and no tables;
   * both keep the FIFO.
   */
  predicate Storage(count: nat, table: seq<SeqState>, times: seq<int>, m: map<nat, int>,
                    status: seq<SeqState>, sentAt: seq<int>, q: seq<nat>) {
    && AllSent(status)
    && (count > 0 ==> |table| == count && TableAgrees(table, times, status, sentAt) && m == map[])
    && (count == 0 ==> table == [] && times == [] && MapAgrees(m, status, sentAt))
    && QueueCovers(q, status)
  }

  /** Recording the next send, in the storage of either mode, keeps the bookkeeping valid. */
  lemma SendKeepsStorage(count: nat, table: seq<SeqState>, times: seq<int>, m: map<nat, int>,
                         status: seq<SeqState>, sentAt: seq<int>, q: seq<nat>, tp: int)
    requires Storage(count, table, times, m, status, sentAt, q)
    requires count > 0 ==> |status| < count
    ensures count > 0 ==>
              Storage(count, table[|status| := InFlight], times[|status| := tp], m,
                      status + [InFlight], sentAt + [tp], q + [|status|])
    ensures count == 0 ==>
              Storage(count, table, times, m[|status| := tp],
                      status + [InFlight], sentAt + [tp], q + [|status|])
  {
    SendKeepsQueue(q, status);
    if count > 0 {
      SendKeepsTable(table, times, status, sentAt, tp);
    } else {
      SendKeepsMap(m, status, sentAt, tp);
    }
  }

  /** Resolving the in-flight entry k, in the storage of either mode, keeps the bookkeeping valid. */
  lemma ResolveKeepsStorage(count: nat, table: seq<SeqState>, times: seq<int>, m: map<nat, int>,
                            status: seq<SeqState>, sentAt: seq<int>, q: seq<nat>, k: nat, v: SeqState)
    requires Storage(count, table, times, m, status, sentAt, q)
    requires k < |status| && status[k] == InFlight && v != InFlight && v != Unsent
    ensures count > 0 ==> Storage(count, table[k := v], times, m, status[k := v], sentAt, q)
    ensures count == 0 ==> Storage(count, table, times, m - {k}, status[k := v], sentAt, q)
  {
    ResolveKeepsQueue(q, status, k, v);
    if count > 0 {
      ResolveKeepsTable(table, times, status, sentAt, k, v);
    } else {
      ResolveKeepsMap(m, status, sentAt, k, v);
    }
  }

  /** Popping a resolved front entry keeps the bookkeeping valid. */
  lemma PopKeepsStorage(count: nat, table: seq<SeqState>, times: seq<int>, m: map<nat, int>,
                        status: seq<SeqState>, sentAt: seq<int>, q: seq<nat>)
    requires Storage(count, table, times, m, status, sentAt, q) && q != [] && status[q[0]] != InFlight
    ensures Storage(count, table, times, m, status, sentAt, q[1..])
  {
    PopKeepsQueue(q, status);
  }

  /** Count mode: the in-flight entries of the whole table are those of the sent prefix. */
  lemma TablePending(table: seq<SeqState>, times: seq<int>, status: seq<SeqState>, sentAt: seq<int>)
    requires TableAgrees(table, times, status, sentAt)
    ensures CountOf(table, InFlight) == CountOf(status, InFlight)
  {
    var rest := table[|status|..];
    assert table == status + rest;
    CountConcat(status, rest, InFlight);
    CountNone(rest, InFlight);
  }

  datatype SweepResult = SweepResult(status: seq<SeqState>, queue: seq<nat>, expired: nat)

  /**
   * The timeout sweep: from the front of the queue, drop entries already
   * resolved, time out in-flight entries strictly older than the timeout,
   * and stop at the first in-flight entry that is not.
   */
  function SweepSpec(status: seq<SeqState>, sentAt: seq<int>, queue: seq<nat>,
                     now: int, timeoutNs: int): (r: SweepResult)
    requires |sentAt| == |status| && QueueWithin(queue, |status|)
    ensures |r.status| == |status| && |r.queue| <= |queue| && QueueWithin(r.queue, |status|)
    decreases |queue|
  {
    if queue == [] then SweepResult(status, queue, 0)
    else
      var s := queue[0];
      if status[s] != InFlight then SweepSpec(status, sentAt, queue[1..], now, timeoutNs)
      else if now - sentAt[s] > timeoutNs then
        var r := SweepSpec(status[s := TimedOut], sentAt, queue[1..], now, timeoutNs);
        r.(expired := r.expired + 1)
      else SweepResult(status, queue, 0)
  }

  /**
   * The sweep only pops from the front, and stops either on an empty queue or
   * at an in-flight entry whose age does not exceed the timeout.
   */
  lemma {:induction false} SweepPopsFront(status: seq<SeqState>, sentAt: seq<int>, queue: seq<nat>,
                                          now: int, timeoutNs: int)
    requires |sentAt| == |status| && QueueWithin(queue, |status|)
    ensures var r := SweepSpec(status, sentAt, queue, now, timeoutNs);
            && |r.status| == |status|
            && |r.queue| <= |queue| && r.queue == queue[|queue| - |r.queue|..]
            && (r.queue != [] ==> r.status[r.queue[0]] == InFlight
                                  && now - sentAt[r.queue[0]] <= timeoutNs)
    decreases |queue|
  {
    if queue != [] {
      var s := queue[0];
      if status[s] != InFlight {
        SweepPopsFront(status, sentAt, queue[1..], now, timeoutNs);
      } else if now - sentAt[s] > timeoutNs {
        SweepPopsFront(status[s := TimedOut], sentAt, queue[1..], now, timeoutNs);
      }
    }
  }

  /**
   * Only in-flight entries the sweep popped change, each to TimedOut and only
   * when strictly older than the timeout.
   */
  lemma {:induction false} SweepChanges(status: seq<SeqState>, sentAt: seq<int>, queue: seq<nat>,
                                        now: int, timeoutNs: int)
    requires |sentAt| == |status| && QueueWithin(queue, |status|)
    ensures var r := SweepSpec(status, sentAt, queue, now, timeoutNs);
            forall i :: 0 <= i < |status| && r.status[i] != status[i] ==>
              && status[i] == InFlight && r.status[i] == TimedOut
              && now - sentAt[i] > timeoutNs && i in queue[..|queue| - |r.queue|]
    decreases |queue|
  {
    if queue != [] {
      var s := queue[0];
      if status[s] != InFlight {
        SweepChanges(status, sentAt, queue[1..], now, timeoutNs);
        var r := SweepSpec(status, sentAt, queue[1..], now, timeoutNs);
        assert queue[..|queue| - |r.queue|] == [s] + queue[1..][..|queue| - 1 - |r.queue|];
      } else if now - sentAt[s] > timeoutNs {
        SweepChanges(status[s := TimedOut], sentAt, queue[1..], now, timeoutNs);
        var r := SweepSpec(status[s := TimedOut], sentAt, queue[1..], now, timeoutNs);
        assert queue[..|queue| - |r.queue|] == [s] + queue[1..][..|queue| - 1 - |r.queue|];
      }
    }
  }

  /** Every entry the sweep popped ends resolved: acked or timed out. */
  lemma {:induction false} SweepResolvesPopped(status: seq<SeqState>, sentAt: seq<int>, queue: seq<nat>,
                                               now: int, timeoutNs: int)
    requires |sentAt| == |status| && QueueWithin(queue, |status|)
    ensures var r := SweepSpec(status, sentAt, queue, now, timeoutNs);
            forall j :: 0 <= j < |queue| - |r.queue| ==> r.status[queue[j]] != InFlight
    decreases |queue|
  {
    if queue != [] {
      var s := queue[0];
      if status[s] != InFlight {
        SweepResolvesPopped(status, sentAt, queue[1..], now, timeoutNs);
        SweepChanges(status, sentAt, queue[1..], now, timeoutNs);
      } else if now - sentAt[s] > timeoutNs {
        SweepResolvesPopped(status[s := TimedOut], sentAt, queue[1..], now, timeoutNs);
        SweepChanges(status[s := TimedOut], sentAt, queue[1..], now, timeoutNs);
      }
    }
  }

  /** On a strictly increasing queue, the entries left behind keep their state. */
  lemma SweepLeavesRest(status: seq<SeqState>, sentAt: seq<int>, queue: seq<nat>,
                        now: int, timeoutNs: int)
    requires |sentAt| == |status| && QueueWithin(queue, |status|) && StrictlyIncreasing(queue)
    ensures var r := SweepSpec(status, sentAt, queue, now, timeoutNs);
            forall j :: 0 <= j < |r.queue| ==> r.status[r.queue[j]] == status[r.queue[j]]
  {
    SweepPopsFront(status, sentAt, queue, now, timeoutNs);
    SweepChanges(status, sentAt, queue, now, timeoutNs);
    var r := SweepSpec(status, sentAt, queue, now, timeoutNs);
    var k := |queue| - |r.queue|;
    forall j | 0 <= j < |r.queue|
      ensures r.status[r.queue[j]] == status[r.queue[j]]
    {
      assert r.queue[j] == queue[k + j];
      forall i | 0 <= i < k
        ensures queue[..k][i] != queue[k + j]
      {
        assert queue[i] < queue[k + j];
      }
      assert queue[k + j] !in queue[..k];
    }
  }

  /**
   * Each entry the sweep times out moves one unit from InFlight to TimedOut;
   * the acked and unsent counts do not change.
   */
  lemma {:induction false} SweepCounts(status: seq<SeqState>, sentAt: seq<int>, queue: seq<nat>,
                                       now: int, timeoutNs: int)
    requires |sentAt| == |status| && QueueWithin(queue, |status|)
    ensures var r := SweepSpec(status, sentAt, queue, now, timeoutNs);
            && CountOf(r.status, TimedOut) == CountOf(status, TimedOut) + r.expired
            && CountOf(r.status, InFlight) + r.expired == CountOf(status, InFlight)
            && CountOf(r.status, Acked) == CountOf(status, Acked)
            && CountOf(r.status, Unsent) == CountOf(status, Unsent)
    decreases |queue|
  {
    if queue != [] {
      var s := queue[0];
      if status[s] != InFlight {
        SweepCounts(status, sentAt, queue[1..], now, timeoutNs);
      } else if now - sentAt[s] > timeoutNs {
        SweepCounts(status[s := TimedOut], sentAt, queue[1..], now, timeoutNs);
        CountUpdate(status, s, TimedOut, TimedOut);
        CountUpdate(status, s, TimedOut, InFlight);
        CountUpdate(status, s, TimedOut, Acked);
        CountUpdate(status, s, TimedOut, Unsent);
      }
    }
  }
}
