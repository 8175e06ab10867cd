/** The aggregation packets of src/star6e_hevc_rtp.c: the builder, its flush, and NAL units sent past it. */
module HevcAggregation {
  import opened Bytes
  import opened HevcReceiver
  import opened RtpPacketizer
  import opened HevcDelivery

  lemma EmptyAp()
    ensures ApBody([]) == [] && !AnyForbidden([]) && SumLen([]) == 0
  {
  }

  /** How long the aggregation packet of some NAL units is: its header, and each of them behind two bytes. */
  function ApLength(ns: seq<Data>): nat { 2 + 2 * |ns| + SumLen(ns) }

  lemma ApLengthAppend(ns: seq<Data>, n: Data)
    ensures ApLength(ns + [n]) == ApLength(ns) + 2 + |n|
  {
    SumLenAppend(ns, n);
  }

  lemma NoLength()
    ensures ApLength([]) == 2
  {
  }

  /** One packet for all these NAL units: a single one as it is, and more in one aggregation packet. */
  ghost predicate Carries(payload: Data, ns: seq<Data>)
  {
    && ns != [] && (forall i :: 0 <= i < |ns| ==> 0 < |ns[i]| < 0x1_0000)
    && if |ns| == 1 then payload == ns[0]
       else |payload| >= 2 && NalType(payload[0]) == AP_TYPE && payload[2..] == ApBody(ns)
  }

  class ApBuilder {
    const payload: array<Byte>
    var payloadLen: nat
    var nalBytes: nat
    var nalCount: Uint16
    var forbiddenZero: Byte
    var layerId: Byte
    var tidPlus1: Byte
    ghost var nals: seq<Data>

    ghost predicate Valid()
      reads this, payload
    {
      && payload.Length == RTP_BUFFER_MAX
      && nalCount == |nals|
      && (forall i :: 0 <= i < |nals| ==> 0 < |nals[i]| < 0x1_0000)
      && nalBytes == SumLen(nals)
      && (nals == [] ==> payloadLen == 0)
      && (nals != [] ==>
           && 2 + |nals| <= payloadLen <= RTP_BUFFER_MAX && payloadLen == ApLength(nals)
           && payload[2..payloadLen] == ApBody(nals)
           && forbiddenZero == (if AnyForbidden(nals) then 0x80 else 0)
           && layerId == MinLayer(nals)
           && tidPlus1 == MinTid(nals))
    }

    constructor ()
      ensures Valid() && nals == [] && fresh(payload)
    {
      payload := new Byte[RTP_BUFFER_MAX](_ => 0);
      payloadLen, nalBytes, nalCount, forbiddenZero, layerId, tidPlus1 := 0, 0, 0, 0, 0, 1;
      nals := [];
    }

    method Reset()
      requires payload.Length == RTP_BUFFER_MAX
      modifies this
      ensures Valid() && nals == []
    {
      payloadLen, nalBytes, nalCount, forbiddenZero, layerId, tidPlus1 := 0, 0, 0, 0, 0, 1;
      nals := [];
    }

    predicate CanAdd(nalLen: nat, maxPayload: nat)
      reads this
    {
      && 0 < nalLen <= 0xFFFF
      && (if nalCount == 0 then 2 else payloadLen) + 2 + nalLen <= maxPayload
    }

    method AppendUnit(nal: Data)
      requires payload.Length == RTP_BUFFER_MAX
      requires |nal| <= 0xFFFF && payloadLen + 2 + |nal| <= RTP_BUFFER_MAX
      modifies this`payloadLen, payload
      ensures payloadLen == old(payloadLen) + 2 + |nal|
      ensures payload[..payloadLen] == old(payload[..payloadLen]) + ApUnit(nal)
      ensures old(payloadLen) >= 2 ==> payload[2..payloadLen] == old(payload[2..payloadLen]) + ApUnit(nal)
    {
      var offset := payloadLen;
      payload[offset] := |nal| / 0x100;
      payload[offset + 1] := |nal| % 0x100;
      forall i | 0 <= i < |nal| {
        payload[offset + 2 + i] := nal[i];
      }
      payloadLen := payloadLen + 2 + |nal|;
    }

    method Add(nal: Data)
      requires Valid() && CanAdd(|nal|, RTP_BUFFER_MAX)
      modifies this, payload
      ensures Valid() && nals == old(nals) + [nal]
      ensures payloadLen == (if old(nalCount) == 0 then 2 else old(payloadLen)) + 2 + |nal|
      ensures nalBytes == old(nalBytes) + |nal|
    {
      hide LayerId, TidPlus1, ApUnit, ApBody, MinLayer, MinTid, AnyForbidden, SumLen, ApLength;
      ghost var was := nals;
      var layer, tid := LayerId(nal), TidPlus1(nal);
      if nalCount == 0 {
        payloadLen := 2;
        forbiddenZero := nal[0] / 0x80 * 0x80;
        layerId := layer;
        tidPlus1 := tid;
      } else {
        forbiddenZero := if nal[0] >= 0x80 then 0x80 else forbiddenZero;
        if layer < layerId {
          layerId := layer;
        }
        if tid < tidPlus1 {
          tidPlus1 := tid;
        }
      }
      ghost var body := payload[2..payloadLen];
      EmptyAp();
      assert body == ApBody(was);
      AppendUnit(nal);
      nalBytes := nalBytes + |nal|;
      nalCount := nalCount + 1;
      nals := nals + [nal];

      ApBodyAppend(was, nal);
      SumLenAppend(was, nal);
      HeaderAppend(was, nal);
      ApLengthAppend(was, nal);
      NoLength();
      assert payload[2..payloadLen] == body + ApUnit(nal);
    }
  }

  /** A builder with one NAL unit in it: its size and its bytes can be read back. */
  lemma SingleUnit(body: Data, n: Data)
    requires 0 < |n| < 0x1_0000 && body == ApBody([n])
    ensures |body| == 2 + |n| && Be16(body[0], body[1]) == |n| && body[2..] == n
  {
    assert ApBody([n]) == ApUnit(n) + ApBody([]);
  }

  /** The bytes the builder puts in front of its units are the aggregation packet's header. */
  lemma ApHeader(p: Data, ns: seq<Data>, forbiddenZero: int, layerId: int, tidPlus1: int)
    requires |p| >= 2 && |ns| >= 2
    requires forbiddenZero == if AnyForbidden(ns) then 0x80 else 0
    requires layerId == MinLayer(ns) && tidPlus1 == MinTid(ns) && 0 <= layerId < 64 && 0 <= tidPlus1 < 8
    requires p[0] == forbiddenZero + AP_TYPE * 2 + layerId / 32 && p[1] == layerId % 32 * 8 + tidPlus1
    ensures NalType(p[0]) == AP_TYPE && ApHeaderOk(p, ns)
  {
    hide MinLayer, MinTid, AnyForbidden;
    assert p[0] % 2 == layerId / 32 && p[1] / 8 == layerId % 32 && p[1] % 8 == tidPlus1;
  }

  /** `star6e_hevc_rtp_apply_stats` for packets of known kind. */
  method CountPackets(stats: Stats?, single: nat, ap: nat, apNals: nat, fu: nat, bytes: nat)
    modifies stats
    ensures stats != null ==>
      && stats.totalNals == old(stats.totalNals)
      && stats.Value() == AddStats(old(stats.Value()), Tally(single, ap, apNals, fu, 0, single + ap + fu, bytes))
  {
    if stats != null {
      stats.singlePackets := Wrap32(stats.singlePackets + single);
      stats.apPackets := Wrap32(stats.apPackets + ap);
      stats.apNals := Wrap32(stats.apNals + apNals);
      stats.fuPackets := Wrap32(stats.fuPackets + fu);
      stats.rtpPackets := Wrap32(stats.rtpPackets + single + ap + fu);
      stats.rtpPayloadBytes := Wrap32(stats.rtpPayloadBytes + bytes);
    }
  }

  /** `after` is `before`, or `before` and one more packet with the given marker. */
  ghost predicate AtMostOneMore(before: seq<Packet>, after: seq<Packet>, marker: bool)
  {
    || after == before
    || (|after| == |before| + 1 && after == before + [after[|before|]] && Marked(after[|before|]) == marker)
  }

  /** One packet more, for `ns`; none only if a writer may fail. */
  ghost predicate OneMore(before: seq<Packet>, after: seq<Packet>, ns: seq<Data>, reliable: bool)
  {
    || (after == before && !reliable)
    || (|after| == |before| + 1 && after[..|before|] == before && Carries(after[|before|].payload, ns))
  }

  /** The queue has gone out. */
  ghost predicate Flushed(before: seq<Packet>, after: seq<Packet>, queue: seq<Data>, reliable: bool)
  {
    if queue == [] then after == before else OneMore(before, after, queue, reliable)
  }

  /** Where NAL units go as one more is handed over. If it fits into the same packet as those queued, it joins them,
      and all go out together with the last one of a frame. If not, those queued go out first, and it is queued on its
      own if there is room for it in an aggregation packet and it is not the last one. */
  ghost predicate Grouped(queue: seq<Data>, data: Data, isLast: bool, maxPayload: nat, reliable: bool,
                          before: seq<Packet>, after: seq<Packet>, queue': seq<Data>)
  {
    if ApLength(queue + [data]) <= maxPayload then
      if isLast then queue' == [] && OneMore(before, after, queue + [data], reliable)
      else queue' == queue + [data] && after == before
    else
      exists mid ::
        && Flushed(before, mid, queue, reliable) && mid <= after
        && if 4 + |data| > maxPayload then queue' == []
           else if isLast then queue' == [] && OneMore(mid, after, [data], reliable)
           else queue' == [data] && after == mid
  }

  lemma OneMoreExtends(before: seq<Packet>, after: seq<Packet>, ns: seq<Data>, reliable: bool)
    requires OneMore(before, after, ns, reliable)
    ensures before <= after
  {
    hide Carries;
  }

  /** What does not fit goes apart, with `mid` in between. */
  lemma GroupedApart(queue: seq<Data>, data: Data, isLast: bool, maxPayload: nat, reliable: bool, before: seq<Packet>,
                     mid: seq<Packet>, after: seq<Packet>, queue': seq<Data>)
    requires ApLength(queue + [data]) > maxPayload && Flushed(before, mid, queue, reliable) && mid <= after
    requires if 4 + |data| > maxPayload then queue' == []
             else if isLast then queue' == [] && OneMore(mid, after, [data], reliable)
             else queue' == [data] && after == mid
    ensures Grouped(queue, data, isLast, maxPayload, reliable, before, after, queue')
  {
    hide ApLength, Flushed, OneMore;
  }

  lemma SumLenSingle(n: Data)
    ensures SumLen([n]) == |n|
  {
    assert [n][..0] == [];
  }

  lemma FlushSingle(log: Log, ps: seq<Packet>, seq1: Uint16, n: Data, reliable: bool, p: Packet, s: StatsValue)
    requires Progress(log, ps, seq1, [n], reliable) && |n| <= log.stream.maxPayload
    requires GoodPacket(p, log.stream) && p.fields.seqNo == seq1 && p.payload == n + []
    ensures Progress(log, ps + [p], Succ16(seq1), [], reliable)
    ensures Tracks(log, ps, s) ==> Tracks(log, ps + [p], AddStats(s, SingleTally(n)))
  {
    hide Received, ReceiveOne, Tracks, TallyOne, Count, AddStats, Sent, Delivers;
    assert n + [] == n;
    HandedSplit(log, [n]);
    if AllWellFormed(log.handed) {
      assert [n][0] == n;
      SingleArrives(Received(ps), Count(ps), n);
    }
    ProgressArrived(log, ps, seq1, [n], reliable, p);
    if Tracks(log, ps, s) {
      CountAppend(ps, p);
      TracksAdd(log, ps, ps + [p], s, SingleTally(n));
    }
  }

  lemma FlushAp(log: Log, ps: seq<Packet>, seq1: Uint16, ns: seq<Data>, payload: Data, reliable: bool,
                p: Packet, s: StatsValue)
    requires Progress(log, ps, seq1, ns, reliable)
    requires |ns| >= 2 && forall i :: 0 <= i < |ns| ==> 0 < |ns[i]| < 0x1_0000
    requires |payload| >= 2 && payload[2..] == ApBody(ns) && NalType(payload[0]) == AP_TYPE && ApHeaderOk(payload, ns)
    requires GoodPacket(p, log.stream) && p.fields.seqNo == seq1 && p.payload == payload + []
    ensures Progress(log, ps + [p], Succ16(seq1), [], reliable)
    ensures Tracks(log, ps, s) ==> Tracks(log, ps + [p], AddStats(s, ApTally(payload, ns)))
  {
    hide Received, ReceiveOne, Tracks, TallyOne, Count, AddStats, Sent, Delivers, ApBody, ApHeaderOk;
    assert payload + [] == payload;
    ApUnitsShort(ns);
    ApArrives(Received(ps), Count(ps), payload, ns);
    ProgressArrived(log, ps, seq1, ns, reliable, p);
    if Tracks(log, ps, s) {
      CountAppend(ps, p);
      TracksAdd(log, ps, ps + [p], s, ApTally(payload, ns));
    }
  }

  /** No unit of an aggregation packet is longer than its body. */
  lemma {:induction false} ApUnitsShort(ns: seq<Data>)
    requires forall i :: 0 <= i < |ns| ==> 0 < |ns[i]| < 0x1_0000
    ensures forall i :: 0 <= i < |ns| ==> |ns[i]| <= |ApBody(ns)|
  {
    if ns != [] {
      ApUnitsShort(ns[1..]);
      assert forall i :: 1 <= i < |ns| ==> ns[i] == ns[1..][i - 1];
    }
  }

  method Flush(ap: ApBuilder, sink: Sink, rtp: RtpState, marker: bool, stats: Stats?, ghost log: Log)
    returns (total: nat)
    requires ap.Valid() && ap.payloadLen <= log.stream.maxPayload
    requires rtp.Stream(log.stream.maxPayload) == log.stream
    requires Progress(log, sink.packets, rtp.seqNo, ap.nals, sink.Reliable())
    requires stats != null ==> Tracks(log, sink.packets, stats.Value())
    modifies ap, ap.payload, sink, rtp`seqNo, stats
    ensures ap.Valid() && ap.nals == []
    ensures Progress(log, sink.packets, rtp.seqNo, [], sink.Reliable())
    ensures stats != null ==> Tracks(log, sink.packets, stats.Value()) && stats.totalNals == old(stats.totalNals)
    ensures AtMostOneMore(old(sink.packets), sink.packets, marker)
    ensures Flushed(old(sink.packets), sink.packets, old(ap.nals), sink.Reliable())
    ensures sink.Reliable() ==> total == old(ap.nalBytes)
    ensures total == if sink.packets == old(sink.packets) then 0 else old(ap.nalBytes)
  {
    hide Received, Delivers, Tracks, Count, AddStats, SumLen, MinLayer, MinTid, AnyForbidden, ApBody, Progress, Carries,
         ApLength;
    total := 0;
    if ap.nalCount == 0 {
      EmptyAp();
      return;
    }
    if ap.nalCount == 1 {
      total := FlushOnly(ap, sink, rtp, marker, stats, log);
    } else {
      total := FlushQueue(ap, sink, rtp, marker, stats, log);
    }
    ap.Reset();
  }

  /** A single queued NAL unit goes out as it is. */
  method FlushOnly(ap: ApBuilder, sink: Sink, rtp: RtpState, marker: bool, stats: Stats?, ghost log: Log)
    returns (total: nat)
    requires ap.Valid() && ap.nalCount == 1 && ap.payloadLen <= log.stream.maxPayload
    requires rtp.Stream(log.stream.maxPayload) == log.stream
    requires Progress(log, sink.packets, rtp.seqNo, ap.nals, sink.Reliable())
    requires stats != null ==> Tracks(log, sink.packets, stats.Value())
    modifies sink, rtp`seqNo, stats
    ensures Progress(log, sink.packets, rtp.seqNo, [], sink.Reliable())
    ensures stats != null ==> Tracks(log, sink.packets, stats.Value()) && stats.totalNals == old(stats.totalNals)
    ensures AtMostOneMore(old(sink.packets), sink.packets, marker)
    ensures OneMore(old(sink.packets), sink.packets, ap.nals, sink.Reliable())
    ensures total == if sink.packets == old(sink.packets) then 0 else ap.nalBytes
  {
    hide Received, ReceiveOne, Delivers, Tracks, Count, Sent, AddStats, SumLen, MinLayer, MinTid, AnyForbidden, ApBody,
         Progress, ApLength;
    total := 0;
    ghost var before, nals, seq0, body := sink.packets, ap.nals, rtp.seqNo, ap.payload[2..ap.payloadLen];
    ghost var stats0 := if stats == null then log.stats0 else stats.Value();
    assert nals == [nals[0]];
    SingleUnit(body, nals[0]);
    var nalLen := Be16(ap.payload[2], ap.payload[3]);
    var nal := ap.payload[4..4 + nalLen];
    assert nal == body[2..];
    SumLenSingle(nal);
    var ok := SendPacket(rtp, sink, nal, [], marker);
    if ok {
      assert nal + [] == nal;
      total := nalLen;
      CountPackets(stats, 1, 0, 0, 0, nalLen);
      FlushSingle(log, before, seq0, nal, sink.Reliable(), sink.packets[|before|], stats0);
    } else {
      ProgressLost(log, before, seq0, nals);
    }
  }

  /** Several queued NAL units go out as one aggregation packet. */
  method FlushQueue(ap: ApBuilder, sink: Sink, rtp: RtpState, marker: bool, stats: Stats?, ghost log: Log)
    returns (total: nat)
    requires ap.Valid() && ap.nalCount > 1 && ap.payloadLen <= log.stream.maxPayload
    requires rtp.Stream(log.stream.maxPayload) == log.stream
    requires Progress(log, sink.packets, rtp.seqNo, ap.nals, sink.Reliable())
    requires stats != null ==> Tracks(log, sink.packets, stats.Value())
    modifies ap.payload, sink, rtp`seqNo, stats
    ensures Progress(log, sink.packets, rtp.seqNo, [], sink.Reliable())
    ensures stats != null ==> Tracks(log, sink.packets, stats.Value()) && stats.totalNals == old(stats.totalNals)
    ensures AtMostOneMore(old(sink.packets), sink.packets, marker)
    ensures OneMore(old(sink.packets), sink.packets, ap.nals, sink.Reliable())
    ensures total == if sink.packets == old(sink.packets) then 0 else ap.nalBytes
  {
    hide Received, ReceiveOne, Delivers, Tracks, Count, Sent, AddStats, SumLen, MinLayer, MinTid, AnyForbidden, ApBody,
         Progress, ApLength;
    total := 0;
    ghost var before, nals, seq0, body := sink.packets, ap.nals, rtp.seqNo, ap.payload[2..ap.payloadLen];
    ghost var stats0 := if stats == null then log.stats0 else stats.Value();
    ap.payload[0] := ap.forbiddenZero + AP_TYPE * 2 + ap.layerId / 32 % 2;
    ap.payload[1] := ap.layerId % 32 * 8 + ap.tidPlus1 % 8;
    var payload := ap.payload[..ap.payloadLen];
    assert payload[2..] == body;
    ApHeader(payload, nals, ap.forbiddenZero, ap.layerId, ap.tidPlus1);
    var ok := SendPacket(rtp, sink, payload, [], marker);
    if ok {
      assert payload + [] == payload;
      total := ap.nalBytes;
      CountPackets(stats, 0, 1, ap.nalCount, 0, ap.payloadLen);
      FlushAp(log, before, seq0, nals, payload, sink.Reliable(), sink.packets[|before|], stats0);
    } else {
      ProgressLost(log, before, seq0, nals);
    }
  }

  /** `send_nal_rtp_hevc`: one NAL unit on its own, with nothing queued. */
  method SendNal(data: Data, sink: Sink, rtp: RtpState, isLast: bool, maxPayload: nat, stats: Stats?, ghost log: Log)
    returns (total: nat)
    requires data != [] && maxPayload <= RTP_BUFFER_MAX
    requires rtp.Stream(maxPayload) == log.stream
    requires Progress(log, sink.packets, rtp.seqNo, [], sink.Reliable())
    requires stats != null ==> Tracks(log, sink.packets, stats.Value())
    modifies sink, rtp`seqNo, stats
    ensures Progress(log.Hand(data), sink.packets, rtp.seqNo, [], sink.Reliable())
    ensures stats != null ==>
      Tracks(log.Hand(data), sink.packets, stats.Value()) && stats.totalNals == old(stats.totalNals)
    ensures WellFormed(data) ==> AtMostLastMarked(sink.packets, |old(sink.packets)|)
    ensures WellFormed(data) ==>
      if total == |data| && isLast then sink.packets != old(sink.packets) && LastMarked(sink.packets)
      else Unmarked(sink.packets, |old(sink.packets)|)
    ensures |sink.packets| >= |old(sink.packets)| && sink.packets[..|old(sink.packets)|] == old(sink.packets)
    ensures sink.Reliable() ==> total == if Deliverable(data, maxPayload) then |data| else 0
  {
    hide Received, Delivers, Tracks, Count, AddStats, Progress, Accounts;
    ghost var before, seq0 := sink.packets, rtp.seqNo;
    ghost var stats0 := if stats == null then log.stats0 else stats.Value();
    var result;
    total, result := SendHevcNal(rtp, sink, data, isLast, maxPayload);
    if result.packetCount != 0 {
      if result.fragmented {
        CountPackets(stats, 0, 0, 0, result.packetCount, result.payloadBytes);
      } else {
        CountPackets(stats, result.packetCount, 0, 0, 0, result.payloadBytes);
      }
    }
    ProgressNal(log, before, sink.packets, seq0, rtp.seqNo, sink.Reliable(), data, isLast, total, result);
    if stats != null {
      TracksNal(log, before, sink.packets, stats0, stats.Value(), data, isLast, total, result);
    }
  }

  lemma TracksNal(log: Log, ps: seq<Packet>, ps': seq<Packet>, s: StatsValue, s': StatsValue,
                  data: Data, isLast: bool, total: int, result: SendResult)
    requires data != [] && Tracks(log, ps, s)
    requires WellFormed(data) ==> NalOutcome(ps, ps', data, isLast, total, result, 0, total == |data|)
    requires s' == if result.packetCount == 0 then s else AddStats(s, ResultTally(result))
    ensures Tracks(log.Hand(data), ps', s')
  {
    hide Count, Received, Delivers, AddStats;
    var log' := log.Hand(data);
    if AllWellFormed(log'.handed) {
      hide Tracks;
      TracksHand(log, ps, s, data);
      assert log'.handed[|log.handed|] == data;
      assert Count(ps') == Plus(Count(ps), ResultTally(result));
      AddNothing(s);
      TracksAdd(log', ps, ps', s, ResultTally(result));
    }
  }

  lemma AddNothing(s: StatsValue)
    ensures AddStats(s, ResultTally(NO_RESULT)) == s
  {
  }
}
