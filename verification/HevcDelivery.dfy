/** What a run of packets delivers, and what the statistics of src/star6e_hevc_rtp.c say about it. */
module HevcDelivery {
  import opened Bytes
  import opened HevcReceiver
  import opened RtpPacketizer

  /** The NAL units that can be sent at all; with four bytes of payload or more this is all of them. */
  function Sendable(ns: seq<Data>, maxPayload: nat): seq<Data>
  {
    if ns == [] then []
    else
      var last := ns[|ns| - 1];
      Sendable(ns[..|ns| - 1], maxPayload) + if Deliverable(last, maxPayload) then [last] else []
  }

  lemma {:induction false} SendableConcat(a: seq<Data>, b: seq<Data>, maxPayload: nat)
    ensures Sendable(a + b, maxPayload) == Sendable(a, maxPayload) + Sendable(b, maxPayload)
  {
    if b == [] {
      assert a + b == a;
    } else {
      SendableConcat(a, b[..|b| - 1], maxPayload);
      assert (a + b)[..|a + b| - 1] == a + b[..|b| - 1];
    }
  }

  lemma {:induction false} AllSendable(ns: seq<Data>, maxPayload: nat)
    requires AllWellFormed(ns)
    ensures maxPayload >= 4 ==> Sendable(ns, maxPayload) == ns
    ensures (forall i :: 0 <= i < |ns| ==> |ns[i]| <= maxPayload) ==> Sendable(ns, maxPayload) == ns
  {
    if ns != [] {
      AllSendable(ns[..|ns| - 1], maxPayload);
      assert ns == ns[..|ns| - 1] + [ns[|ns| - 1]];
    }
  }

  ghost predicate AllDeliverable(ns: seq<Data>, maxPayload: nat)
  {
    forall i :: 0 <= i < |ns| ==> Deliverable(ns[i], maxPayload)
  }

  lemma DeliverableFront(ns: seq<Data>, maxPayload: nat)
    requires ns != []
    ensures AllDeliverable(ns, maxPayload)
       <==> AllDeliverable(ns[..|ns| - 1], maxPayload) && Deliverable(ns[|ns| - 1], maxPayload)
  {
    hide Deliverable;
    var front := ns[..|ns| - 1];
    assert forall i :: 0 <= i < |front| ==> front[i] == ns[i];
  }

  /** Everything can be sent just when each NAL unit can be sent. */
  lemma {:induction false} SendableIff(ns: seq<Data>, maxPayload: nat)
    ensures Sendable(ns, maxPayload) == ns <==> AllDeliverable(ns, maxPayload)
    ensures |Sendable(ns, maxPayload)| <= |ns|
  {
    hide Deliverable, AllDeliverable;
    if ns == [] {
      NoneUndeliverable(maxPayload);
    } else {
      var front, last := ns[..|ns| - 1], ns[|ns| - 1];
      SendableIff(front, maxPayload);
      DeliverableFront(ns, maxPayload);
      assert ns == front + [last];
      if Deliverable(last, maxPayload) {
        SameEnd(Sendable(front, maxPayload), front, last);
      } else {
        assert |Sendable(ns, maxPayload)| == |Sendable(front, maxPayload)| < |ns|;
      }
    }
  }

  lemma NoneUndeliverable(maxPayload: nat)
    ensures AllDeliverable([], maxPayload)
  {
  }

  lemma SameEnd<T>(a: seq<T>, b: seq<T>, x: T)
    ensures a + [x] == b + [x] <==> a == b
  {
    assert (a + [x])[..|a|] == a && (b + [x])[..|b|] == b;
    if a + [x] == b + [x] {
      assert |a + [x]| == |b + [x]|;
    }
  }

  /** A receiver that had `r0` now has `r1`: in between came NAL units that were handed over, in order,
      each of them whole; all that can be sent at all, if no write failed. */
  ghost predicate Delivers(r0: seq<Data>, r1: seq<Data>, handed: seq<Data>, maxPayload: nat, reliable: bool)
  {
    && |r0| <= |r1| && r1[..|r0|] == r0
    && Subsequence(r1[|r0|..], handed)
    && (reliable ==> r1[|r0|..] == Sendable(handed, maxPayload))
  }

  lemma DeliversMore(r0: seq<Data>, r1: seq<Data>, handed: seq<Data>, more: seq<Data>, arrived: bool,
                     maxPayload: nat, reliable: bool)
    requires Delivers(r0, r1, handed, maxPayload, reliable)
    requires reliable ==> Sendable(more, maxPayload) == if arrived then more else []
    ensures Delivers(r0, r1 + if arrived then more else [], handed + more, maxPayload, reliable)
  {
    var d := if arrived then more else [];
    assert (r1 + d)[|r0|..] == r1[|r0|..] + d;
    assert (r1 + d)[..|r0|] == r1[..|r0|];
    if arrived {
      SubsequenceKeep(r1[|r0|..], handed, more);
    } else {
      SubsequenceSkip(r1[|r0|..], handed, more);
      assert r1[|r0|..] + d == r1[|r0|..];
    }
    SendableConcat(handed, more, maxPayload);
  }

  /** Delivery composes. */
  lemma DeliversTrans(r0: seq<Data>, r1: seq<Data>, r2: seq<Data>, a: seq<Data>, b: seq<Data>, maxPayload: nat,
                      reliable: bool)
    requires Delivers(r0, r1, a, maxPayload, reliable) && Delivers(r1, r2, b, maxPayload, reliable)
    ensures Delivers(r0, r2, a + b, maxPayload, reliable)
  {
    assert r2[..|r0|] == r1[..|r0|];
    assert r2[|r0|..] == r1[|r0|..] + r2[|r1|..];
    SubsequenceConcat(r1[|r0|..], a, r2[|r1|..], b);
    SendableConcat(a, b, maxPayload);
  }

  /** The counters of packets among the statistics. */
  datatype StatsValue = StatsValue(singlePackets: Uint32, apPackets: Uint32, apNals: Uint32,
                                   fuPackets: Uint32, rtpPackets: Uint32, rtpPayloadBytes: Uint32)

  class Stats {
    var totalNals: Uint32
    var singlePackets: Uint32
    var apPackets: Uint32
    var apNals: Uint32
    var fuPackets: Uint32
    var rtpPackets: Uint32
    var rtpPayloadBytes: Uint32

    ghost function Value(): StatsValue
      reads this
    {
      StatsValue(singlePackets, apPackets, apNals, fuPackets, rtpPackets, rtpPayloadBytes)
    }
  }

  /** Where a frame started: the packets, the sequence number and the statistics before it, what its
      packets have in common; the NAL units handed to the sender since, and the bytes it reported as sent. */
  datatype Log = Log(before: seq<Packet>, seq0: Uint16, stream: StreamInfo, stats0: StatsValue, nals0: nat,
                     handed: seq<Data>, bytes: nat)
  {
    function Hand(data: Data): Log { if data == [] then this else this.(handed := handed + [data]) }
  }

  /** Since the start of the frame all packets are in order and well-formed, and a receiver has what was
      handed over, apart from the NAL units still in `queue`; no fragment carries both S and E. */
  ghost predicate Progress(log: Log, ps: seq<Packet>, seq1: Uint16, queue: seq<Data>, reliable: bool)
  {
    && log.stream.maxPayload >= 0
    && Sent(log.before, ps, log.seq0, seq1, log.stream)
    && |queue| <= |log.handed| && log.handed[|log.handed| - |queue|..] == queue
    && (AllWellFormed(log.handed) ==>
          && Delivers(Received(log.before).nals, Received(ps).nals, log.handed[..|log.handed| - |queue|],
                      log.stream.maxPayload, reliable)
          && Count(ps).wholeFu == Count(log.before).wholeFu)
  }

  function Plus(t: Tally, d: Tally): Tally
  {
    Tally(t.single + d.single, t.ap + d.ap, t.apNals + d.apNals, t.fu + d.fu, t.wholeFu + d.wholeFu,
          t.packets + d.packets, t.bytes + d.bytes)
  }

  /** The statistics after packets with tally `d`. */
  function AddStats(s: StatsValue, d: Tally): StatsValue
  {
    StatsValue(Wrap32(s.singlePackets + d.single), Wrap32(s.apPackets + d.ap), Wrap32(s.apNals + d.apNals),
               Wrap32(s.fuPackets + d.fu), Wrap32(s.rtpPackets + d.packets), Wrap32(s.rtpPayloadBytes + d.bytes))
  }

  /** Every counter of packets has grown by what it counts among the packets added to `before`, and none
      of the fragments among them carries both S and E. */
  ghost predicate Grown(before: seq<Packet>, after: seq<Packet>, s0: StatsValue, s1: StatsValue)
  {
    exists d: Tally :: d.wholeFu == 0 && Count(after) == Plus(Count(before), d) && s1 == AddStats(s0, d)
  }

  /** Growth over one span and then another. */
  lemma GrownTrans(a: seq<Packet>, b: seq<Packet>, c: seq<Packet>, s0: StatsValue, s1: StatsValue, s2: StatsValue)
    requires Grown(a, b, s0, s1) && Grown(b, c, s1, s2)
    ensures Grown(a, c, s0, s2)
  {
    hide Count, AddStats, Plus;
    var d: Tally :| d.wholeFu == 0 && Count(b) == Plus(Count(a), d) && s1 == AddStats(s0, d);
    var e: Tally :| e.wholeFu == 0 && Count(c) == Plus(Count(b), e) && s2 == AddStats(s1, e);
    AddStatsTwice(s0, d, e);
    PlusAssoc(Count(a), d, e);
  }

  lemma PlusAssoc(t: Tally, d: Tally, e: Tally)
    ensures Plus(Plus(t, d), e) == Plus(t, Plus(d, e)) && Plus(d, e).wholeFu == d.wholeFu + e.wholeFu
  {
  }

  lemma GrownNone(a: seq<Packet>, s: StatsValue)
    ensures Grown(a, a, s, s)
  {
    hide Count;
    var d := Tally(0, 0, 0, 0, 0, 0, 0);
    assert Count(a) == Plus(Count(a), d) && s == AddStats(s, d);
  }

  ghost predicate Tracks(log: Log, ps: seq<Packet>, now: StatsValue)
  {
    AllWellFormed(log.handed) ==> Grown(log.before, ps, log.stats0, now)
  }

  lemma AddStatsTwice(s: StatsValue, d: Tally, e: Tally)
    ensures AddStats(AddStats(s, d), e) == AddStats(s, Plus(d, e))
  {
    Wrap32Add(s.singlePackets + d.single, e.single);
    Wrap32Add(s.apPackets + d.ap, e.ap);
    Wrap32Add(s.apNals + d.apNals, e.apNals);
    Wrap32Add(s.fuPackets + d.fu, e.fu);
    Wrap32Add(s.rtpPackets + d.packets, e.packets);
    Wrap32Add(s.rtpPayloadBytes + d.bytes, e.bytes);
  }

  lemma TracksAdd(log: Log, ps: seq<Packet>, ps': seq<Packet>, s: StatsValue, d: Tally)
    requires Tracks(log, ps, s)
    requires AllWellFormed(log.handed) ==> d.wholeFu == 0 && Count(ps') == Plus(Count(ps), d)
    ensures Tracks(log, ps', AddStats(s, d))
  {
    hide Count, AddStats;
    if AllWellFormed(log.handed) {
      var d0: Tally :| d0.wholeFu == 0 && Count(ps) == Plus(Count(log.before), d0) && s == AddStats(log.stats0, d0);
      AddStatsTwice(log.stats0, d0, d);
      PlusAssoc(Count(log.before), d0, d);
    }
  }

  /** Handing over another NAL unit changes no counter of packets. */
  lemma TracksHand(log: Log, ps: seq<Packet>, s: StatsValue, data: Data)
    requires Tracks(log, ps, s)
    ensures Tracks(log.Hand(data), ps, s)
  {
    hide Count, WellFormed, Wrap32;
    if AllWellFormed(log.Hand(data).handed) {
      assert forall i :: 0 <= i < |log.handed| ==> log.Hand(data).handed[i] == log.handed[i];
    }
  }

  lemma ProgressQueue(log: Log, ps: seq<Packet>, seq1: Uint16, queue: seq<Data>, reliable: bool, data: Data)
    requires Progress(log, ps, seq1, queue, reliable) && data != []
    ensures Progress(log.Hand(data), ps, seq1, queue + [data], reliable)
  {
    hide Received, Delivers, Sent, WellFormed, Count;
    var h := log.handed;
    var h' := h + [data];
    assert h'[|h'| - |queue + [data]|..] == h[|h| - |queue|..] + [data];
    assert h'[..|h'| - |queue + [data]|] == h[..|h| - |queue|];
    assert AllWellFormed(h') ==> AllWellFormed(h) by {
      assert forall i :: 0 <= i < |h| ==> h'[i] == h[i];
    }
  }

  lemma HandedSplit(log: Log, queue: seq<Data>)
    requires |queue| <= |log.handed| && log.handed[|log.handed| - |queue|..] == queue
    ensures log.handed == log.handed[..|log.handed| - |queue|] + queue
    ensures log.handed[..|log.handed|] == log.handed
    ensures AllWellFormed(log.handed) ==> AllWellFormed(queue)
  {
    var done := log.handed[..|log.handed| - |queue|];
    assert log.handed == done + queue;
    assert forall i :: 0 <= i < |queue| ==> queue[i] == log.handed[|done| + i];
  }

  /** One packet has gone out with the whole queue in it. */
  lemma ProgressArrived(log: Log, ps: seq<Packet>, seq1: Uint16, queue: seq<Data>, reliable: bool, p: Packet)
    requires Progress(log, ps, seq1, queue, reliable)
    requires forall i :: 0 <= i < |queue| ==> Deliverable(queue[i], log.stream.maxPayload)
    requires GoodPacket(p, log.stream) && p.fields.seqNo == seq1
    requires AllWellFormed(log.handed) ==> ReceiveOne(Received(ps), p.payload).nals == Received(ps).nals + queue
    requires AllWellFormed(log.handed) ==> TallyOne(Count(ps), p.payload).wholeFu == Count(ps).wholeFu
    ensures Progress(log, ps + [p], Succ16(seq1), [], reliable)
  {
    hide Count, TallyOne, Received, ReceiveOne, Sent, GoodPacket, Delivers, Deliverable, Sendable, WellFormed;
    SentAppend(log.before, ps, p, log.seq0, seq1, log.stream);
    HandedSplit(log, queue);
    if AllWellFormed(log.handed) {
      QueueSendable(queue, log.stream.maxPayload);
      DeliversMore(Received(log.before).nals, Received(ps).nals, log.handed[..|log.handed| - |queue|], queue, true,
                   log.stream.maxPayload, reliable);
      ReceivedAppend(ps, p);
      CountAppend(ps, p);
    }
  }

  /** The packet with the queue in it was refused: the queue is lost. */
  lemma ProgressLost(log: Log, ps: seq<Packet>, seq1: Uint16, queue: seq<Data>)
    requires Progress(log, ps, seq1, queue, false)
    ensures Progress(log, ps, seq1, [], false)
  {
    hide Received, Sent, Delivers, Sendable, WellFormed, Count;
    HandedSplit(log, queue);
    if AllWellFormed(log.handed) {
      DeliversMore(Received(log.before).nals, Received(ps).nals, log.handed[..|log.handed| - |queue|], queue, false,
                   log.stream.maxPayload, false);
      assert Received(ps).nals + [] == Received(ps).nals;
    }
  }

  lemma {:induction false} QueueSendable(queue: seq<Data>, maxPayload: nat)
    requires forall i :: 0 <= i < |queue| ==> Deliverable(queue[i], maxPayload)
    ensures Sendable(queue, maxPayload) == queue
  {
    if queue != [] {
      QueueSendable(queue[..|queue| - 1], maxPayload);
      assert queue == queue[..|queue| - 1] + [queue[|queue| - 1]];
    }
  }

  /** With nothing queued, one NAL unit has been sent on its own or in fragments. */
  lemma ProgressNal(log: Log, ps: seq<Packet>, ps': seq<Packet>, seq1: Uint16, seq2: Uint16, reliable: bool,
                    data: Data, isLast: bool, total: int, result: SendResult)
    requires Progress(log, ps, seq1, [], reliable) && data != []
    requires Sent(ps, ps', seq1, seq2, log.stream)
    requires WellFormed(data) ==> NalOutcome(ps, ps', data, isLast, total, result, 0, total == |data|)
    requires reliable ==> total == if Deliverable(data, log.stream.maxPayload) then |data| else 0
    ensures Progress(log.Hand(data), ps', seq2, [], reliable)
  {
    hide Received, Count, Sent, Delivers, Accounts, WellFormed, Unmarked, LastMarked, AtMostLastMarked, Progress;
    var h, h', mp := log.handed, log.handed + [data], log.stream.maxPayload;
    NothingQueued(log, ps, seq1, reliable);
    SentTrans(log.before, ps, ps', log.seq0, seq1, seq2, log.stream);
    if AllWellFormed(h') {
      assert h'[|h|] == data && forall i :: 0 <= i < |h| ==> h'[i] == h[i];
      NoWholeFu(ps, ps', result);
      SendableOne(data, mp);
      DeliversMore(Received(log.before).nals, Received(ps).nals, h, [data], total == |data|, mp, reliable);
    }
    NothingQueued(log.Hand(data), ps', seq2, reliable);
  }

  /** With an empty queue, progress is about all that was handed over. */
  lemma NothingQueued(log: Log, ps: seq<Packet>, seq1: Uint16, reliable: bool)
    ensures Progress(log, ps, seq1, [], reliable)
       <==> && log.stream.maxPayload >= 0 && Sent(log.before, ps, log.seq0, seq1, log.stream)
            && (AllWellFormed(log.handed) ==>
                  && Delivers(Received(log.before).nals, Received(ps).nals, log.handed, log.stream.maxPayload, reliable)
                  && Count(ps).wholeFu == Count(log.before).wholeFu)
  {
    hide Received, Count, Sent, Delivers, WellFormed;
    var h := log.handed;
    assert h[..|h|] == h && h[|h|..] == [];
  }

  lemma NoWholeFu(ps: seq<Packet>, ps': seq<Packet>, result: SendResult)
    requires Accounts(result, 0, ps, ps')
    ensures Count(ps').wholeFu == Count(ps).wholeFu
  {
    hide Count;
  }

  lemma SendableOne(n: Data, maxPayload: nat)
    ensures Sendable([n], maxPayload) == if Deliverable(n, maxPayload) then [n] else []
  {
    assert [n][..0] == [];
  }

  function ApTally(p: Data, ns: seq<Data>): Tally { Tally(0, 1, |ns|, 0, 0, 1, |p|) }

  function SingleTally(n: Data): Tally { Tally(1, 0, 0, 0, 0, 1, |n|) }

  function ResultTally(r: SendResult): Tally
  {
    Tally(if r.fragmented then 0 else r.packetCount, 0, 0, if r.fragmented then r.packetCount else 0, 0,
          r.packetCount, r.payloadBytes)
  }

  /** An aggregation packet hands its NAL units to the receiver. */
  lemma ApArrives(rx: Rx, t: Tally, p: Data, ns: seq<Data>)
    requires |ns| >= 2 && forall i :: 0 <= i < |ns| ==> 0 < |ns[i]| < 0x1_0000
    requires |p| >= 2 && p[2..] == ApBody(ns) && NalType(p[0]) == AP_TYPE && ApHeaderOk(p, ns)
    ensures ReceiveOne(rx, p) == Rx(rx.nals + ns, None)
    ensures TallyOne(t, p) == Plus(t, ApTally(p, ns))
  {
    hide ApHeaderOk, ParseAp, ApBody;
    ParseApBody(ns);
  }

  lemma SingleArrives(rx: Rx, t: Tally, n: Data)
    requires WellFormed(n)
    ensures ReceiveOne(rx, n) == Rx(rx.nals + [n], None)
    ensures TallyOne(t, n) == Plus(t, SingleTally(n))
  {
  }
}
