/** The H.265 frame sender of src/star6e_hevc_rtp.c: which NAL units go out, in what order, under which marker. */
module HevcRtp {
  import opened Arith
  import opened Bytes
  import opened HevcReceiver
  import opened RtpPacketizer
  import opened ParamSets
  import opened H26xUtil
  import opened HevcDelivery
  import opened HevcAggregation

  /** Since the start of the frame no packet carries the marker yet. */
  ghost predicate NoMarkerYet(log: Log, ps: seq<Packet>)
  {
    AllWellFormed(log.handed) ==> Unmarked(ps, |log.before|)
  }

  /** The markers after `data` has been handed over, given that there was none before: only the last
      packet of the last NAL unit may have one, and if no write fails it has one just when it is sent. */
  ghost predicate MarkersAfter(log: Log, ps: seq<Packet>, data: Data, isLast: bool, reliable: bool)
  {
    && (!isLast ==> NoMarkerYet(log, ps))
    && (isLast && AllWellFormed(log.handed) ==>
          && AtMostLastMarked(ps, |log.before|)
          && (reliable ==>
                if Deliverable(data, log.stream.maxPayload)
                then |ps| > |log.before| && LastMarked(ps)
                else Unmarked(ps, |log.before|)))
  }

  /** What holds between two NAL units of a frame. */
  ghost predicate Between(log: Log, sink: Sink, rtp: RtpState, ap: ApBuilder, stats: Stats?)
    reads sink, rtp, ap, ap.payload, stats
  {
    && ap.Valid() && ap.payloadLen <= log.stream.maxPayload <= RTP_BUFFER_MAX
    && rtp.Stream(log.stream.maxPayload) == log.stream
    && Progress(log, sink.packets, rtp.seqNo, ap.nals, sink.Reliable())
    && (stats != null ==> Tracks(log, sink.packets, stats.Value()))
    && |log.before| <= |sink.packets|
  }

  lemma WellFormedPrefix(log: Log, data: Data)
    ensures AllWellFormed(log.Hand(data).handed) ==> AllWellFormed(log.handed)
    ensures AllWellFormed(log.Hand(data).handed) && data != [] ==> WellFormed(data)
  {
    var h := log.Hand(data).handed;
    assert forall i :: 0 <= i < |log.handed| ==> h[i] == log.handed[i];
    if data != [] {
      assert h[|log.handed|] == data;
    }
  }

  /** A NAL unit that does not fit into an aggregation packet: what is queued goes first. */
  method FlushThenSend(data: Data, sink: Sink, rtp: RtpState, ap: ApBuilder, isLast: bool, maxPayload: nat,
                       stats: Stats?, ghost log: Log) returns (total: nat)
    requires maxPayload == log.stream.maxPayload && data != [] && |data| > maxPayload
    requires Between(log, sink, rtp, ap, stats) && NoMarkerYet(log, sink.packets)
    modifies ap, ap.payload, sink, rtp`seqNo, stats
    ensures Between(log.Hand(data), sink, rtp, ap, stats) && ap.nals == [] && ap.nalBytes == 0
    ensures Grouped(old(ap.nals), data, isLast, maxPayload, sink.Reliable(), old(sink.packets), sink.packets, ap.nals)
    ensures stats != null ==> stats.totalNals == old(stats.totalNals)
    ensures MarkersAfter(log.Hand(data), sink.packets, data, isLast, sink.Reliable())
    ensures sink.Reliable() ==> total == old(ap.nalBytes) + if Deliverable(data, maxPayload) then |data| else 0
  {
    hide Received, Delivers, Tracks, Count, AddStats, Progress, SumLen, WellFormed, MinLayer, MinTid, AnyForbidden,
         ApBody, Grouped, Flushed, Carries, ApLength;
    WellFormedPrefix(log, data);
    EmptyAp();
    ghost var queue, before := ap.nals, sink.packets;
    total := Flush(ap, sink, rtp, false, stats, log);
    ghost var mid := sink.packets;
    var t := SendNal(data, sink, rtp, isLast, maxPayload, stats, log);
    total := total + t;
    ApLengthAppend(queue, data);
    GroupedApart(queue, data, isLast, maxPayload, sink.Reliable(), before, mid, sink.packets, ap.nals);
  }

  /** A NAL unit that fits: into the aggregation packet, which goes out with the last one of the frame. */
  method Enqueue(data: Data, sink: Sink, rtp: RtpState, ap: ApBuilder, isLast: bool, maxPayload: nat,
                 stats: Stats?, ghost log: Log) returns (total: nat)
    requires maxPayload == log.stream.maxPayload && ap.CanAdd(|data|, maxPayload)
    requires Between(log, sink, rtp, ap, stats) && NoMarkerYet(log, sink.packets)
    modifies ap, ap.payload, sink, rtp`seqNo, stats
    ensures Between(log.Hand(data), sink, rtp, ap, stats)
    ensures ap.nals == if isLast then [] else old(ap.nals) + [data]
    ensures isLast ==> OneMore(old(sink.packets), sink.packets, old(ap.nals) + [data], sink.Reliable())
    ensures !isLast ==> sink.packets == old(sink.packets)
    ensures stats != null ==> stats.totalNals == old(stats.totalNals)
    ensures MarkersAfter(log.Hand(data), sink.packets, data, isLast, sink.Reliable())
    ensures sink.Reliable() ==> total + ap.nalBytes == old(ap.nalBytes) + |data|
  {
    hide Received, Delivers, Tracks, Count, AddStats, Progress, SumLen, WellFormed, MinLayer, MinTid, AnyForbidden,
         ApBody;
    WellFormedPrefix(log, data);
    EmptyAp();
    total := 0;
    ghost var queue := ap.nals;
    ap.Add(data);
    ProgressQueue(log, sink.packets, rtp.seqNo, queue, sink.Reliable(), data);
    if stats != null {
      TracksHand(log, sink.packets, stats.Value(), data);
    }
    if isLast {
      total := Flush(ap, sink, rtp, true, stats, log.Hand(data));
    }
  }

  /** A NAL unit that does not fit with what is queued: it may fit once that is gone. */
  method FlushThenAdd(data: Data, sink: Sink, rtp: RtpState, ap: ApBuilder, isLast: bool, maxPayload: nat,
                      stats: Stats?, ghost log: Log) returns (total: nat)
    requires maxPayload == log.stream.maxPayload && 0 < |data| <= maxPayload && !ap.CanAdd(|data|, maxPayload)
    requires Between(log, sink, rtp, ap, stats) && NoMarkerYet(log, sink.packets)
    modifies ap, ap.payload, sink, rtp`seqNo, stats
    ensures Between(log.Hand(data), sink, rtp, ap, stats)
    ensures ap.nals == if isLast || |data| + 4 > maxPayload then [] else [data]
    ensures Grouped(old(ap.nals), data, isLast, maxPayload, sink.Reliable(), old(sink.packets), sink.packets, ap.nals)
    ensures stats != null ==> stats.totalNals == old(stats.totalNals)
    ensures MarkersAfter(log.Hand(data), sink.packets, data, isLast, sink.Reliable())
    ensures sink.Reliable() ==> total + ap.nalBytes == old(ap.nalBytes) + |data|
  {
    hide Received, Delivers, Tracks, Count, AddStats, Progress, SumLen, WellFormed, MinLayer, MinTid, AnyForbidden,
         ApBody, Grouped, Flushed, OneMore, Carries, ApLength;
    WellFormedPrefix(log, data);
    EmptyAp();
    NoLength();
    ghost var queue, before := ap.nals, sink.packets;
    total := Flush(ap, sink, rtp, false, stats, log);
    ghost var mid := sink.packets;
    ApLengthAppend(queue, data);
    assert [] + [data] == [data];
    var t;
    if !ap.CanAdd(|data|, maxPayload) {
      t := SendNal(data, sink, rtp, isLast, maxPayload, stats, log);
    } else {
      t := Enqueue(data, sink, rtp, ap, isLast, maxPayload, stats, log);
    }
    total := total + t;
    if isLast && 4 + |data| <= maxPayload {
      OneMoreExtends(mid, sink.packets, [data], sink.Reliable());
    }
    GroupedApart(queue, data, isLast, maxPayload, sink.Reliable(), before, mid, sink.packets, ap.nals);
  }

  /** Between two NAL units of a frame, the totals are right as well: NAL units handed over, and bytes
      of those that could be sent. */
  ghost predicate InFrame(log: Log, sink: Sink, rtp: RtpState, ap: ApBuilder, stats: Stats?)
    reads sink, rtp, ap, ap.payload, stats
  {
    && Between(log, sink, rtp, ap, stats)
    && (stats != null ==> stats.totalNals == Wrap32(log.nals0 + |log.handed|))
    && (sink.Reliable() ==> log.bytes + ap.nalBytes == SumLen(Sendable(log.handed, log.stream.maxPayload)))
  }

  /** The three ways out of `send_or_queue_nal_rtp_hevc`. */
  method Route(data: Data, sink: Sink, rtp: RtpState, ap: ApBuilder, isLast: bool, maxPayload: nat,
               stats: Stats?, ghost log: Log) returns (total: nat)
    requires maxPayload == log.stream.maxPayload && data != []
    requires Between(log, sink, rtp, ap, stats) && NoMarkerYet(log, sink.packets)
    modifies ap, ap.payload, sink, rtp`seqNo, stats
    ensures Between(log.Hand(data).(bytes := log.bytes + total), sink, rtp, ap, stats)
    ensures stats != null ==> stats.totalNals == old(stats.totalNals)
    ensures ap.nals == [] <==> isLast || |data| + 4 > maxPayload
    ensures Grouped(old(ap.nals), data, isLast, maxPayload, sink.Reliable(), old(sink.packets), sink.packets, ap.nals)
    ensures MarkersAfter(log.Hand(data), sink.packets, data, isLast, sink.Reliable())
    ensures sink.Reliable() ==>
      total + ap.nalBytes == old(ap.nalBytes) + if Deliverable(data, maxPayload) then |data| else 0
  {
    hide Between, NoMarkerYet, MarkersAfter, OneMore, Flushed;
    assert ap.Valid() && ap.payloadLen <= maxPayload <= RTP_BUFFER_MAX by {
      BetweenAp(log, sink, rtp, ap, stats);
    }
    if |data| > maxPayload || |data| > 0xFFFF {
      total := FlushThenSend(data, sink, rtp, ap, isLast, maxPayload, stats, log);
    } else if !ap.CanAdd(|data|, maxPayload) {
      total := FlushThenAdd(data, sink, rtp, ap, isLast, maxPayload, stats, log);
    } else {
      total := Enqueue(data, sink, rtp, ap, isLast, maxPayload, stats, log);
    }
    BytesIrrelevant(log.Hand(data), total, sink, rtp, ap, stats);
  }

  lemma BetweenAp(log: Log, sink: Sink, rtp: RtpState, ap: ApBuilder, stats: Stats?)
    requires Between(log, sink, rtp, ap, stats)
    ensures ap.Valid() && ap.payloadLen <= log.stream.maxPayload <= RTP_BUFFER_MAX
  {
  }

  method SendOrQueue(data: Data, sink: Sink, rtp: RtpState, ap: ApBuilder, isLast: bool, maxPayload: nat,
                     stats: Stats?, ghost log: Log) returns (total: nat)
    requires maxPayload == log.stream.maxPayload
    requires InFrame(log, sink, rtp, ap, stats) && NoMarkerYet(log, sink.packets)
    modifies ap, ap.payload, sink, rtp`seqNo, stats
    ensures InFrame(log.Hand(data).(bytes := log.bytes + total), sink, rtp, ap, stats)
    ensures data != [] ==> (ap.nals == [] <==> isLast || |data| + 4 > maxPayload)
    ensures data != [] ==>
      Grouped(old(ap.nals), data, isLast, maxPayload, sink.Reliable(), old(sink.packets), sink.packets, ap.nals)
    ensures data != [] ==> MarkersAfter(log.Hand(data), sink.packets, data, isLast, sink.Reliable())
  {
    hide Between, Sendable, SumLen, MarkersAfter, NoMarkerYet, Wrap32, Deliverable, Grouped;
    total := 0;
    if data == [] {
      assert log.Hand(data).(bytes := log.bytes + total) == log;
      return;
    }
    ghost var nalBytes := ap.nalBytes;
    CountNal(sink, rtp, ap, stats, log);
    total := Route(data, sink, rtp, ap, isLast, maxPayload, stats, log);
    InFrameStep(log, data, total, nalBytes, sink, rtp, ap, stats);
  }

  lemma InFrameStep(log: Log, data: Data, total: nat, nalBytes: nat, sink: Sink, rtp: RtpState, ap: ApBuilder,
      stats: Stats?)
    requires data != [] && log.stream.maxPayload >= 0
    requires Between(log.Hand(data).(bytes := log.bytes + total), sink, rtp, ap, stats)
    requires stats != null ==> stats.totalNals == Wrap32(Wrap32(log.nals0 + |log.handed|) + 1)
    requires sink.Reliable() ==>
      && log.bytes + nalBytes == SumLen(Sendable(log.handed, log.stream.maxPayload))
      && total + ap.nalBytes == nalBytes + if Deliverable(data, log.stream.maxPayload) then |data| else 0
    ensures InFrame(log.Hand(data).(bytes := log.bytes + total), sink, rtp, ap, stats)
  {
    hide Between, Sendable, SumLen, Wrap32, Deliverable;
    Wrap32Add(log.nals0 + |log.handed|, 1);
    SumSendable(log.handed, data, log.stream.maxPayload);
  }

  method CountNal(sink: Sink, rtp: RtpState, ap: ApBuilder, stats: Stats?, ghost log: Log)
    requires Between(log, sink, rtp, ap, stats)
    modifies stats
    ensures Between(log, sink, rtp, ap, stats)
    ensures stats != null ==> stats.totalNals == Wrap32(old(stats.totalNals) + 1)
  {
    hide Tracks, Progress, SumLen, Wrap32, ApBody, AnyForbidden, MinLayer, MinTid;
    if stats != null {
      stats.totalNals := Wrap32(stats.totalNals + 1);
    }
  }

  /** The byte total plays no part in what is known about the packets. */
  lemma BytesIrrelevant(log: Log, total: nat, sink: Sink, rtp: RtpState, ap: ApBuilder, stats: Stats?)
    requires Between(log, sink, rtp, ap, stats)
    ensures Between(log.(bytes := log.bytes + total), sink, rtp, ap, stats)
  {
    hide Delivers, Count, AddStats, Sent, Received;
  }

  /** One entry of `packetInfo`, with the H.265 NAL unit type the encoder reports. */
  datatype PackInfo = PackInfo(offset: Uint32, length: Uint32, nalType: Byte)

  /** `MI_VENC_Pack_t`: a buffer, and up to eight NAL units in it. */
  datatype Pack = Pack(data: Option<Data>, length: Uint32, offset: Uint32, packNum: Uint32, info: seq<PackInfo>)
  {
    /** The buffer holds what the encoder says it holds. */
    ghost predicate Valid()
    {
      && |info| == PACKET_INFO_CAP
      && (data.Some? ==> |data.value| >= length)
    }

    function Slots(): nat
    {
      if data.None? then 0 else if packNum == 0 then 1
      else if packNum > PACKET_INFO_CAP then PACKET_INFO_CAP else packNum
    }

    /** The NAL unit in slot `k`, if the slot describes one. */
    function UnitAt(k: nat): Option<Unit>
      requires Valid() && k < Slots()
    {
      if packNum > 0 then
        var i := info[k];
        if i.length == 0 || i.offset >= length || i.length > length - i.offset then None
        else
          var nal := StripStartCode(data.value[i.offset..i.offset + i.length]);
          if nal == [] then None else Some(Unit(nal, i.nalType))
      else if length <= offset then None
      else
        var nal := StripStartCode(data.value[offset..length]);
        if nal == [] then None else Some(Unit(nal, NalType(nal[0])))
    }

    /** The NAL units in the first `k` slots. */
    function UnitsUpTo(k: nat): seq<Unit>
      requires Valid() && k <= Slots()
    {
      if k == 0 then [] else UnitsUpTo(k - 1) + match UnitAt(k - 1) case Some(u) => [u] case None => []
    }
  }

  const PACKET_INFO_CAP := 8

  ghost predicate AllValid(packs: seq<Pack>) { forall i :: 0 <= i < |packs| ==> packs[i].Valid() }

  /** The NAL units of a frame, in order. */
  function Units(packs: seq<Pack>): seq<Unit>
    requires AllValid(packs)
  {
    if packs == [] then []
    else
      var last := packs[|packs| - 1];
      Units(packs[..|packs| - 1]) + last.UnitsUpTo(last.Slots())
  }

  predicate LastSlotValid(packs: seq<Pack>)
    requires AllValid(packs)
  {
    && packs != []
    && var last := packs[|packs| - 1];
       last.Slots() > 0 && last.UnitAt(last.Slots() - 1).Some?
  }

  /** What is handed over for the units `us`: with a cache of parameter sets, those are put in front. */
  function Handed(cache: Option<Sets>, us: seq<Unit>): seq<Data>
  {
    match cache
    case Some(sets) => Expand(sets, H265, us)
    case None => Nals(us)
  }

  function Nals(us: seq<Unit>): seq<Data>
  {
    if us == [] then [] else Nals(us[..|us| - 1]) + [us[|us| - 1].nal]
  }

  function CacheAfter(cache: Option<Sets>, us: seq<Unit>): Option<Sets>
  {
    match cache case Some(sets) => Some(After(sets, H265, us)) case None => None
  }

  /** What is handed over for one unit, given the cache after it. */
  function EmitOne(cache: Option<Sets>, u: Unit): seq<Data>
  {
    match cache case Some(sets) => Emit(sets, H265, u) case None => [u.nal]
  }

  lemma HandedAppend(cache: Option<Sets>, us: seq<Unit>, u: Unit)
    ensures Handed(cache, us + [u]) == Handed(cache, us) + EmitOne(CacheAfter(cache, us + [u]), u)
    ensures cache.Some? ==>
      CacheAfter(cache, us + [u]) == Some(UpdateSets(CacheAfter(cache, us).value, H265, u))
  {
    assert (us + [u])[..|us|] == us;
  }

  ghost function CacheValue(params: ParamCache?): Option<Sets>
    requires params != null ==> params.Valid()
    reads params, if params == null then {} else {params.vps, params.sps, params.pps}
  {
    if params == null then None else Some(params.Value())
  }

  /** `send_prepend_param_sets_hevc` */
  method SendPrepends(params: ParamCache, nalType: Byte, sink: Sink, rtp: RtpState, ap: ApBuilder, maxPayload: nat,
                      stats: Stats?, ghost log: Log) returns (total: nat)
    requires params.Valid() && ap.payload != params.vps && ap.payload != params.sps && ap.payload != params.pps
    requires maxPayload == log.stream.maxPayload
    requires InFrame(log, sink, rtp, ap, stats) && NoMarkerYet(log, sink.packets)
    modifies ap, ap.payload, sink, rtp`seqNo, stats
    ensures params.Valid() && params.Value() == old(params.Value())
    ensures var log' := log.(handed := log.handed + Prepend(params.Value(), H265, nalType), bytes := log.bytes + total);
      InFrame(log', sink, rtp, ap, stats) && NoMarkerYet(log', sink.packets)
  {
    hide InFrame, NoMarkerYet, MarkersAfter, Grouped;
    total := 0;
    var refs := params.GetPrepend(H265, nalType, 3);
    var i := 0;
    ghost var log' := log;
    assert log.handed + refs[..0] == log.handed;
    while i < |refs|
      invariant 0 <= i <= |refs|
      invariant log' == log.(handed := log.handed + refs[..i], bytes := log.bytes + total)
      invariant InFrame(log', sink, rtp, ap, stats) && NoMarkerYet(log', sink.packets)
    {
      assert refs[..i + 1] == refs[..i] + [refs[i]];
      var t := SendOrQueue(refs[i], sink, rtp, ap, false, maxPayload, stats, log');
      total := total + t;
      NotLast(log'.Hand(refs[i]), t, sink.packets, refs[i], sink.Reliable());
      log' := log'.Hand(refs[i]).(bytes := log'.bytes + t);
      i := i + 1;
    }
    assert refs[..|refs|] == refs;
  }

  lemma NotLast(log: Log, total: nat, ps: seq<Packet>, data: Data, reliable: bool)
    requires MarkersAfter(log, ps, data, false, reliable)
    ensures NoMarkerYet(log.(bytes := log.bytes + total), ps)
  {
  }

  lemma SumSendable(ns: seq<Data>, n: Data, maxPayload: nat)
    ensures SumLen(Sendable(ns + [n], maxPayload))
         == SumLen(Sendable(ns, maxPayload)) + if Deliverable(n, maxPayload) then |n| else 0
  {
    assert (ns + [n])[..|ns|] == ns;
    var s := Sendable(ns, maxPayload);
    if Deliverable(n, maxPayload) {
      SumLenAppend(s, n);
    } else {
      assert s + [] == s;
    }
  }

  ghost predicate Apart(ap: ApBuilder, params: ParamCache?)
  {
    params != null ==> ap.payload != params.vps && ap.payload != params.sps && ap.payload != params.pps
  }

  ghost function CacheArrays(params: ParamCache?): set<object>
  {
    if params == null then {} else {params, params.vps, params.sps, params.pps}
  }

  /** One NAL unit of the frame: remember it, send the sets it needs, send it. */
  method SendUnit(params: ParamCache?, nal: Data, nalType: Byte, sink: Sink, rtp: RtpState, ap: ApBuilder, isLast: bool,
                  maxPayload: nat, stats: Stats?, ghost log: Log) returns (total: nat)
    requires nal != [] && Apart(ap, params) && (params != null ==> params.Valid())
    requires maxPayload == log.stream.maxPayload
    requires InFrame(log, sink, rtp, ap, stats) && NoMarkerYet(log, sink.packets)
    modifies CacheArrays(params), ap, ap.payload, sink, rtp`seqNo, stats
    ensures params != null ==>
      params.Valid() && params.Value() == UpdateSets(old(params.Value()), H265, Unit(nal, nalType))
    ensures var log' := log.(handed := log.handed + EmitOne(CacheValue(params), Unit(nal, nalType)),
                             bytes := log.bytes + total);
      && InFrame(log', sink, rtp, ap, stats)
      && MarkersAfter(log', sink.packets, nal, isLast, sink.Reliable())
    ensures ap.nals == [] <==> isLast || |nal| + 4 > maxPayload
  {
    hide InFrame, NoMarkerYet, MarkersAfter, UpdateSets, Prepend, Grouped;
    total := 0;
    ghost var log' := log;
    if params != null {
      params.Update(H265, nalType, nal);
      total := SendPrepends(params, nalType, sink, rtp, ap, maxPayload, stats, log);
      log' := log.(handed := log.handed + Prepend(params.Value(), H265, nalType), bytes := log.bytes + total);
    }
    var t := SendOrQueue(nal, sink, rtp, ap, isLast, maxPayload, stats, log');
    total := total + t;
    assert log'.handed + [nal] == log.handed + EmitOne(CacheValue(params), Unit(nal, nalType));
    MarkersBytes(log'.Hand(nal), t, sink.packets, nal, isLast, sink.Reliable());
  }

  lemma MarkersBytes(log: Log, total: nat, ps: seq<Packet>, data: Data, isLast: bool, reliable: bool)
    requires MarkersAfter(log, ps, data, isLast, reliable)
    ensures MarkersAfter(log.(bytes := log.bytes + total), ps, data, isLast, reliable)
  {
  }

  /** The part of a frame that has been worked through: the units `us` have been handed over. */
  ghost predicate FrameSoFar(us: seq<Unit>, cache0: Option<Sets>, log: Log, sink: Sink, rtp: RtpState, ap: ApBuilder,
                             params: ParamCache?, stats: Stats?)
    reads sink, rtp, ap, ap.payload, stats, CacheArrays(params)
  {
    && Apart(ap, params) && (params != null ==> params.Valid())
    && CacheValue(params) == CacheAfter(cache0, us)
    && log.handed == Handed(cache0, us)
    && InFrame(log, sink, rtp, ap, stats)
  }

  /** No marker is out yet; the builder is empty unless the last unit went into it. */
  ghost predicate LastPending(us: seq<Unit>, log: Log, ps: seq<Packet>, queue: seq<Data>)
  {
    && NoMarkerYet(log, ps)
    && (queue == [] <==> us == [] || |us[|us| - 1].nal| + 4 > log.stream.maxPayload)
  }

  /** The last unit is out, and so is the marker if it can be. */
  ghost predicate LastDone(us: seq<Unit>, log: Log, ps: seq<Packet>, queue: seq<Data>, reliable: bool)
  {
    && queue == [] && us != []
    && MarkersAfter(log, ps, us[|us| - 1].nal, true, reliable)
  }

  method SendSlot(pack: Pack, k: nat, ghost us: seq<Unit>, ghost cache0: Option<Sets>, params: ParamCache?, sink: Sink,
                  rtp: RtpState, ap: ApBuilder, isLast: bool, maxPayload: nat, stats: Stats?, ghost log: Log)
    returns (total: nat, ghost us': seq<Unit>, ghost log': Log)
    requires pack.Valid() && k < pack.Slots()
    requires maxPayload == log.stream.maxPayload
    requires FrameSoFar(us, cache0, log, sink, rtp, ap, params, stats)
    requires LastPending(us, log, sink.packets, ap.nals)
    modifies CacheArrays(params), ap, ap.payload, sink, rtp`seqNo, stats
    ensures us' == us + match pack.UnitAt(k) case Some(u) => [u] case None => []
    ensures log' == log.(handed := log'.handed, bytes := log.bytes + total)
    ensures FrameSoFar(us', cache0, log', sink, rtp, ap, params, stats)
    ensures if isLast && pack.UnitAt(k).Some? then LastDone(us', log', sink.packets, ap.nals, sink.Reliable())
            else LastPending(us', log', sink.packets, ap.nals)
  {
    hide FrameSoFar, LastPending, LastDone, StripStartCode;
    total, us', log' := 0, us, log;
    assert us + [] == us;
    var data;
    if pack.packNum > 0 {
      var offset, len := pack.info[k].offset, pack.info[k].length;
      if len == 0 || offset >= pack.length || len > pack.length - offset {
        return;
      }
      data := pack.data.value[offset..offset + len];
    } else {
      if pack.length <= pack.offset {
        return;
      }
      data := pack.data.value[pack.offset..pack.length];
    }
    var nal := StripStartCodes(data);
    if nal == [] {
      return;
    }
    var nalType: Byte := NalType(nal[0]);
    if pack.packNum > 0 {
      nalType := pack.info[k].nalType;
    }
    us' := us + [Unit(nal, nalType)];
    total, log' := SendNext(nal, nalType, us, cache0, params, sink, rtp, ap, isLast, maxPayload, stats, log);
  }

  /** The NAL unit of a slot, behind those of the frame so far. */
  method SendNext(nal: Data, nalType: Byte, ghost us: seq<Unit>, ghost cache0: Option<Sets>, params: ParamCache?,
                  sink: Sink, rtp: RtpState, ap: ApBuilder, isLast: bool, maxPayload: nat, stats: Stats?,
                  ghost log: Log) returns (total: nat, ghost log': Log)
    requires nal != [] && maxPayload == log.stream.maxPayload
    requires FrameSoFar(us, cache0, log, sink, rtp, ap, params, stats)
    requires LastPending(us, log, sink.packets, ap.nals)
    modifies CacheArrays(params), ap, ap.payload, sink, rtp`seqNo, stats
    ensures var us' := us + [Unit(nal, nalType)];
      && log' == log.(handed := log'.handed, bytes := log.bytes + total)
      && FrameSoFar(us', cache0, log', sink, rtp, ap, params, stats)
      && (if isLast then LastDone(us', log', sink.packets, ap.nals, sink.Reliable())
          else LastPending(us', log', sink.packets, ap.nals))
  {
    hide InFrame, NoMarkerYet, MarkersAfter, UpdateSets, EmitOne, Handed, After;
    HandedAppend(cache0, us, Unit(nal, nalType));
    total := SendUnit(params, nal, nalType, sink, rtp, ap, isLast, maxPayload, stats, log);
    log' := log.(handed := log.handed + EmitOne(CacheValue(params), Unit(nal, nalType)), bytes := log.bytes + total);
    if !isLast {
      NotLast(log', 0, sink.packets, nal, sink.Reliable());
    }
  }

  method SendPack(pack: Pack, isLastPack: bool, ghost us: seq<Unit>, ghost cache0: Option<Sets>, params: ParamCache?,
                  sink: Sink, rtp: RtpState, ap: ApBuilder, maxPayload: nat, stats: Stats?, ghost log: Log)
    returns (total: nat, ghost us': seq<Unit>, ghost log': Log)
    requires pack.Valid()
    requires maxPayload == log.stream.maxPayload
    requires FrameSoFar(us, cache0, log, sink, rtp, ap, params, stats)
    requires LastPending(us, log, sink.packets, ap.nals)
    modifies CacheArrays(params), ap, ap.payload, sink, rtp`seqNo, stats
    ensures us' == us + pack.UnitsUpTo(pack.Slots())
    ensures log' == log.(handed := log'.handed, bytes := log.bytes + total)
    ensures FrameSoFar(us', cache0, log', sink, rtp, ap, params, stats)
    ensures if isLastPack && pack.Slots() > 0 && pack.UnitAt(pack.Slots() - 1).Some?
            then LastDone(us', log', sink.packets, ap.nals, sink.Reliable())
            else LastPending(us', log', sink.packets, ap.nals)
  {
    hide FrameSoFar, LastPending, LastDone, Pack.UnitAt;
    total, us', log' := 0, us, log;
    var nalCount := if pack.packNum > 0 then pack.packNum else 1;
    if pack.packNum > 0 && nalCount > PACKET_INFO_CAP {
      nalCount := PACKET_INFO_CAP;
    }
    assert us + [] == us;
    if pack.data.None? {
      return;
    }
    var k := 0;
    while k < nalCount
      invariant 0 <= k <= nalCount == pack.Slots()
      invariant us' == us + pack.UnitsUpTo(k)
      invariant log' == log.(handed := log'.handed, bytes := log.bytes + total)
      invariant FrameSoFar(us', cache0, log', sink, rtp, ap, params, stats)
      invariant if isLastPack && k == pack.Slots() && k > 0 && pack.UnitAt(k - 1).Some?
                then LastDone(us', log', sink.packets, ap.nals, sink.Reliable())
                else LastPending(us', log', sink.packets, ap.nals)
    {
      var lastNal := isLastPack && ((pack.packNum > 0 && k == nalCount - 1) || pack.packNum == 0);
      var t;
      t, us', log' := SendSlot(pack, k, us', cache0, params, sink, rtp, ap, lastNal, maxPayload, stats, log');
      total := total + t;
      k := k + 1;
    }
  }

  /** At the start of a frame nothing has been handed over and nothing is queued. */
  lemma FrameStart(log: Log, sink: Sink, rtp: RtpState, ap: ApBuilder, stats: Stats?)
    requires ap.Valid() && ap.nals == [] && 0 <= log.stream.maxPayload <= RTP_BUFFER_MAX
    requires log.before == sink.packets && log.seq0 == rtp.seqNo && log.stream == rtp.Stream(log.stream.maxPayload)
    requires stats != null ==> log.stats0 == stats.Value() && log.nals0 == stats.totalNals
    requires log.handed == [] && log.bytes == 0
    ensures InFrame(log, sink, rtp, ap, stats)
    ensures LastPending([], log, sink.packets, ap.nals)
  {
    hide Received, Count;
    EmptyAp();
    var d := Tally(0, 0, 0, 0, 0, 0, 0);
    assert Plus(Count(sink.packets), d) == Count(sink.packets);
    if stats != null {
      assert stats.Value() == AddStats(log.stats0, d);
    }
  }

  /** The marker ends up on the last packet just when this holds, if no write fails. */
  predicate MarkerExpected(packs: seq<Pack>, maxPayload: nat)
    requires AllValid(packs)
  {
    LastMarkerExpected(Units(packs), LastSlotValid(packs), maxPayload)
  }

  predicate LastMarkerExpected(us: seq<Unit>, lastValid: bool, maxPayload: nat)
  {
    us != [] && if lastValid then Deliverable(us[|us| - 1].nal, maxPayload) else |us[|us| - 1].nal| + 4 <= maxPayload
  }

  /** A frame has gone out: `handed` are its NAL units, with the parameter sets in front of them. */
  ghost predicate FrameOutcome(before: seq<Packet>, after: seq<Packet>, seq0: Uint16, seq1: Uint16, stream: StreamInfo,
                               handed: seq<Data>, total: nat, markerExpected: bool, reliable: bool)
  {
    && stream.maxPayload >= 0
    // whatever the writer does, the packets are good and in order;
    && Sent(before, after, seq0, seq1, stream)
    && (AllWellFormed(handed) ==>
          // the receiver gets a subsequence of the NAL units, and all that can be sent if no write fails,
          && Delivers(Received(before).nals, Received(after).nals, handed, stream.maxPayload, reliable)
          // which is every NAL unit once there are four bytes of payload;
          && (reliable && stream.maxPayload >= 4 ==>
                Received(after).nals == Received(before).nals + handed && total == SumLen(handed))
          // no fragment carries both S and E,
          && Count(after).wholeFu == Count(before).wholeFu
          // and at most the last packet carries the marker.
          && AtMostLastMarked(after, |before|)
          && (reliable ==>
                if markerExpected then |after| > |before| && LastMarked(after) else Unmarked(after, |before|)))
  }

  /** The flush that ends a frame. */
  method Finish(sink: Sink, rtp: RtpState, ap: ApBuilder, maxPayload: nat, stats: Stats?,
                ghost us: seq<Unit>, ghost lastValid: bool, ghost log: Log) returns (total: nat)
    requires maxPayload == log.stream.maxPayload
    requires InFrame(log, sink, rtp, ap, stats)
    requires us != [] ==> log.handed != []
    requires if lastValid then LastDone(us, log, sink.packets, ap.nals, sink.Reliable())
             else LastPending(us, log, sink.packets, ap.nals)
    modifies ap, ap.payload, sink, rtp`seqNo, stats
    ensures FrameOutcome(log.before, sink.packets, log.seq0, rtp.seqNo, log.stream, log.handed, log.bytes + total,
                         LastMarkerExpected(us, lastValid, maxPayload), sink.Reliable())
    ensures stats != null ==>
      && stats.totalNals == Wrap32(log.nals0 + |log.handed|)
      && Tracks(log, sink.packets, stats.Value())
  {
    hide Progress, Tracks, Count, AddStats, Sendable, SumLen, Wrap32, WellFormed, ApBody, MinLayer, MinTid,
         AnyForbidden, Delivers, Received, Sent;
    EmptyAp();
    total := Flush(ap, sink, rtp, true, stats, log);
    Outcome(log, sink.packets, rtp.seqNo, sink.Reliable(), log.bytes + total);
  }

  /** The loop over the packs of a frame. */
  method SendPacks(packs: seq<Pack>, ghost cache0: Option<Sets>, params: ParamCache?, sink: Sink, rtp: RtpState,
                   ap: ApBuilder, maxPayload: nat, stats: Stats?, ghost log: Log)
    returns (total: nat, ghost log': Log)
    requires AllValid(packs) && maxPayload == log.stream.maxPayload && log.bytes == 0
    requires FrameSoFar([], cache0, log, sink, rtp, ap, params, stats)
    requires LastPending([], log, sink.packets, ap.nals)
    modifies CacheArrays(params), ap, ap.payload, sink, rtp`seqNo, stats
    ensures log' == log.(handed := log'.handed, bytes := total)
    ensures FrameSoFar(Units(packs), cache0, log', sink, rtp, ap, params, stats)
    ensures if LastSlotValid(packs) then LastDone(Units(packs), log', sink.packets, ap.nals, sink.Reliable())
            else LastPending(Units(packs), log', sink.packets, ap.nals)
  {
    hide FrameSoFar, LastPending, LastDone, Pack.UnitsUpTo, Pack.UnitAt;
    total, log' := 0, log;
    ghost var us: seq<Unit> := [];
    var i := 0;
    while i < |packs|
      invariant 0 <= i <= |packs|
      invariant us == Units(packs[..i])
      invariant log' == log.(handed := log'.handed, bytes := total)
      invariant FrameSoFar(us, cache0, log', sink, rtp, ap, params, stats)
      invariant if i == |packs| && LastSlotValid(packs) then LastDone(us, log', sink.packets, ap.nals, sink.Reliable())
                else LastPending(us, log', sink.packets, ap.nals)
    {
      assert packs[..i + 1][..i] == packs[..i];
      var t;
      t, us, log' := SendPack(packs[i], i == |packs| - 1, us, cache0, params, sink, rtp, ap, maxPayload, stats, log');
      total := total + t;
      i := i + 1;
    }
    assert packs[..|packs|] == packs;
  }

  /** The packets of a frame, all of them under its timestamp. */
  method SendFramePackets(packs: seq<Pack>, sink: Sink, rtp: RtpState, params: ParamCache?, payloadLimit: nat,
      stats: Stats?)
    returns (total: nat)
    requires AllValid(packs) && (params != null ==> params.Valid())
    modifies CacheArrays(params), sink, rtp`seqNo, stats
    ensures params != null ==> params.Valid()
    ensures CacheValue(params) == CacheAfter(old(CacheValue(params)), Units(packs))
    ensures FrameOutcome(old(sink.packets), sink.packets, old(rtp.seqNo), rtp.seqNo,
                         old(rtp.Stream(Min(payloadLimit, RTP_BUFFER_MAX))),
                         Handed(old(CacheValue(params)), Units(packs)), total,
                         MarkerExpected(packs, Min(payloadLimit, RTP_BUFFER_MAX)), sink.Reliable())
    ensures stats != null ==>
      var handed := Handed(old(CacheValue(params)), Units(packs));
      && stats.totalNals == Wrap32(old(stats.totalNals) + |handed|)
      && (AllWellFormed(handed) ==> Grown(old(sink.packets), sink.packets, old(stats.Value()), stats.Value()))
  {
    hide FrameSoFar, LastPending, LastDone, InFrame, FrameOutcome, Grown, WellFormed, Wrap32, Handed, CacheAfter,
         LastMarkerExpected, CacheValue, Units, LastSlotValid, AllValid, ParamCache.Valid;
    var maxPayload := if payloadLimit > RTP_BUFFER_MAX then RTP_BUFFER_MAX else payloadLimit;
    var ap := new ApBuilder();
    ghost var cache0 := CacheValue(params);
    ghost var log := Log(sink.packets, rtp.seqNo, rtp.Stream(maxPayload),
                         if stats == null then StatsValue(0, 0, 0, 0, 0, 0) else stats.Value(),
                         if stats == null then 0 else stats.totalNals, [], 0);
    FrameStart(log, sink, rtp, ap, stats);
    NothingHanded(cache0, log, sink, rtp, ap, params, stats);
    total, log := SendPacks(packs, cache0, params, sink, rtp, ap, maxPayload, stats, log);
    AllHanded(Units(packs), cache0, log, sink, rtp, ap, params, stats);
    var t := Finish(sink, rtp, ap, maxPayload, stats, Units(packs), LastSlotValid(packs), log);
    total := total + t;
    assert CacheValue(params) == CacheAfter(cache0, Units(packs));
  }

  method SendFrame(packs: seq<Pack>, sink: Sink, rtp: RtpState, frameTicks: Uint32, params: ParamCache?,
                   payloadLimit: nat, stats: Stats?) returns (total: nat)
    requires AllValid(packs) && (params != null ==> params.Valid())
    modifies CacheArrays(params), sink, rtp, stats
    ensures params != null ==> params.Valid()
    ensures CacheValue(params) == CacheAfter(old(CacheValue(params)), Units(packs))
    ensures FrameOutcome(old(sink.packets), sink.packets, old(rtp.seqNo), rtp.seqNo,
                         old(rtp.Stream(Min(payloadLimit, RTP_BUFFER_MAX))),
                         Handed(old(CacheValue(params)), Units(packs)), total,
                         MarkerExpected(packs, Min(payloadLimit, RTP_BUFFER_MAX)), sink.Reliable())
    ensures stats != null ==>
      var handed := Handed(old(CacheValue(params)), Units(packs));
      && stats.totalNals == Wrap32(old(stats.totalNals) + |handed|)
      && (AllWellFormed(handed) ==> Grown(old(sink.packets), sink.packets, old(stats.Value()), stats.Value()))
    ensures rtp.timestamp == Wrap32(old(rtp.timestamp) + frameTicks)
    ensures rtp.ssrc == old(rtp.ssrc) && rtp.payloadType == old(rtp.payloadType)
  {
    hide FrameOutcome, Grown, WellFormed, Wrap32, Handed, CacheAfter, LastMarkerExpected;
    total := SendFramePackets(packs, sink, rtp, params, payloadLimit, stats);
    rtp.timestamp := Wrap32(rtp.timestamp + frameTicks);
  }

  lemma NothingHanded(cache0: Option<Sets>, log: Log, sink: Sink, rtp: RtpState, ap: ApBuilder,
                      params: ParamCache?, stats: Stats?)
    requires Apart(ap, params) && (params != null ==> params.Valid()) && cache0 == CacheValue(params)
    requires log.handed == [] && InFrame(log, sink, rtp, ap, stats)
    ensures FrameSoFar([], cache0, log, sink, rtp, ap, params, stats)
  {
    hide InFrame;
  }

  lemma AllHanded(us: seq<Unit>, cache0: Option<Sets>, log: Log, sink: Sink, rtp: RtpState, ap: ApBuilder,
                  params: ParamCache?, stats: Stats?)
    requires FrameSoFar(us, cache0, log, sink, rtp, ap, params, stats)
    ensures params != null ==> params.Valid()
    ensures CacheValue(params) == CacheAfter(cache0, us) && log.handed == Handed(cache0, us)
    ensures us != [] ==> log.handed != []
    ensures InFrame(log, sink, rtp, ap, stats)
  {
    hide InFrame;
    if us != [] {
      HandedAppend(cache0, us[..|us| - 1], us[|us| - 1]);
      assert us[..|us| - 1] + [us[|us| - 1]] == us;
    }
  }

  /** With nothing queued any more, progress is delivery; and with room for a fragment it is of everything. */
  lemma Outcome(log: Log, ps: seq<Packet>, seq1: Uint16, reliable: bool, total: nat)
    requires Progress(log, ps, seq1, [], reliable)
    requires reliable ==> total == SumLen(Sendable(log.handed, log.stream.maxPayload))
    ensures Sent(log.before, ps, log.seq0, seq1, log.stream)
    ensures AllWellFormed(log.handed) ==>
      Delivers(Received(log.before).nals, Received(ps).nals, log.handed, log.stream.maxPayload, reliable)
      && Count(ps).wholeFu == Count(log.before).wholeFu
    ensures AllWellFormed(log.handed) && reliable && log.stream.maxPayload >= 4 ==>
      Received(ps).nals == Received(log.before).nals + log.handed && total == SumLen(log.handed)
  {
    hide Received, Sent, SumLen, Count;
    assert log.handed[..|log.handed|] == log.handed;
    if AllWellFormed(log.handed) {
      AllSendable(log.handed, log.stream.maxPayload);
      var r0, r1 := Received(log.before).nals, Received(ps).nals;
      assert r1 == r1[..|r0|] + r1[|r0|..];
    }
  }

  // ---- runs of frames ----

  ghost predicate AllFramesValid(frames: seq<seq<Pack>>) { forall i :: 0 <= i < |frames| ==> AllValid(frames[i]) }

  /** The units of a run of frames, in order. */
  function UnitsOf(frames: seq<seq<Pack>>): seq<Unit>
    requires AllFramesValid(frames)
  {
    if frames == [] then [] else UnitsOf(frames[..|frames| - 1]) + Units(frames[|frames| - 1])
  }

  /** What a receiver has got once `handed` were sent. */
  ghost predicate Got(r0: seq<Data>, r1: seq<Data>, handed: seq<Data>, maxPayload: nat, reliable: bool)
  {
    AllWellFormed(handed) ==>
      && Delivers(r0, r1, handed, maxPayload, reliable)
      && (reliable && maxPayload >= 4 ==> r1 == r0 + handed)
  }

  lemma GotMore(r0: seq<Data>, r1: seq<Data>, r2: seq<Data>, a: seq<Data>, b: seq<Data>, maxPayload: nat,
                reliable: bool)
    requires Got(r0, r1, a, maxPayload, reliable) && Got(r1, r2, b, maxPayload, reliable)
    ensures Got(r0, r2, a + b, maxPayload, reliable)
  {
    hide Delivers, WellFormed;
    assert forall i :: 0 <= i < |a| ==> (a + b)[i] == a[i];
    assert forall i :: 0 <= i < |b| ==> (a + b)[|a| + i] == b[i];
    if AllWellFormed(a + b) {
      DeliversTrans(r0, r1, r2, a, b, maxPayload, reliable);
      AppendAssoc(r0, a, b);
    }
  }

  lemma {:induction false} NalsConcat(us: seq<Unit>, more: seq<Unit>)
    ensures Nals(us + more) == Nals(us) + Nals(more)
  {
    if more == [] {
      assert us + more == us;
    } else {
      NalsConcat(us, more[..|more| - 1]);
      assert (us + more)[..|us + more| - 1] == us + more[..|more| - 1];
    }
  }

  /** What is handed over for two runs of units, the second under the cache the first left. */
  lemma HandedConcat(cache: Option<Sets>, us: seq<Unit>, more: seq<Unit>)
    ensures Handed(cache, us + more) == Handed(cache, us) + Handed(CacheAfter(cache, us), more)
    ensures CacheAfter(cache, us + more) == CacheAfter(CacheAfter(cache, us), more)
  {
    match cache
    case Some(sets) =>
      ExpandConcat(sets, H265, us, more);
      AfterConcat(sets, H265, us, more);
    case None => NalsConcat(us, more);
  }

  /** Between two frames: what has been sent, the number and the timestamp that come next, and what the frame before
      reported. */
  datatype Point = Point(packets: seq<Packet>, seqNo: Uint16, timestamp: Uint32, total: nat)

  /** A frame has gone out between two points, under the timestamp of the first. */
  ghost predicate FrameBetween(p: Point, q: Point, packs: seq<Pack>, cache: Option<Sets>, frameTicks: Uint32,
                               stream: StreamInfo, reliable: bool)
    requires AllValid(packs) && stream.maxPayload >= 0
  {
    && q.timestamp == Wrap32(p.timestamp + frameTicks)
    && FrameOutcome(p.packets, q.packets, p.seqNo, q.seqNo, stream.(timestamp := p.timestamp),
                    Handed(cache, Units(packs)), q.total, MarkerExpected(packs, stream.maxPayload), reliable)
  }

  /** The first `n` frames have gone out one after the other, from each of `points` to the next. */
  ghost predicate RunSent(frames: seq<seq<Pack>>, n: nat, cache0: Option<Sets>, points: seq<Point>, frameTicks: Uint32,
                          stream: StreamInfo, reliable: bool)
    requires AllFramesValid(frames) && n <= |frames| && stream.maxPayload >= 0
  {
    && |points| == n + 1
    && forall f :: 0 <= f < n ==>
         FrameBetween(points[f], points[f + 1], frames[f], CacheAfter(cache0, UnitsOf(frames[..f])), frameTicks, stream,
                      reliable)
  }

  lemma RunNone(frames: seq<seq<Pack>>, cache0: Option<Sets>, points: seq<Point>, frameTicks: Uint32,
                stream: StreamInfo, reliable: bool)
    requires AllFramesValid(frames) && |points| == 1 && stream.maxPayload >= 0
    ensures RunSent(frames, 0, cache0, points, frameTicks, stream, reliable)
  {
  }

  lemma RunMore(frames: seq<seq<Pack>>, n: nat, cache0: Option<Sets>, points: seq<Point>, q: Point, frameTicks: Uint32,
                stream: StreamInfo, reliable: bool)
    requires AllFramesValid(frames) && n < |frames| && stream.maxPayload >= 0
    requires RunSent(frames, n, cache0, points, frameTicks, stream, reliable)
    requires FrameBetween(points[n], q, frames[n], CacheAfter(cache0, UnitsOf(frames[..n])), frameTicks, stream,
                          reliable)
    ensures RunSent(frames, n + 1, cache0, points + [q], frameTicks, stream, reliable)
  {
    hide FrameBetween, CacheAfter, UnitsOf, AllValid;
  }

  /** The statistics over a run: every NAL unit handed over is counted, and every packet as what it is. */
  ghost predicate Counted(handed: seq<Data>, before: seq<Packet>, after: seq<Packet>, nals0: int, nals1: int,
                          s0: StatsValue, s1: StatsValue)
  {
    nals1 == Wrap32(nals0 + |handed|) && (AllWellFormed(handed) ==> Grown(before, after, s0, s1))
  }

  lemma CountedMore(a: seq<Data>, b: seq<Data>, p0: seq<Packet>, p1: seq<Packet>, p2: seq<Packet>, n0: int, n1: int,
                    n2: int, s0: StatsValue, s1: StatsValue, s2: StatsValue)
    requires Counted(a, p0, p1, n0, n1, s0, s1) && Counted(b, p1, p2, n1, n2, s1, s2)
    ensures Counted(a + b, p0, p2, n0, n2, s0, s2)
  {
    hide Grown, WellFormed, Wrap32;
    Wrap32Add(n0 + |a|, |b|);
    assert forall i :: 0 <= i < |a| ==> (a + b)[i] == a[i];
    assert forall i :: 0 <= i < |b| ==> (a + b)[|a| + i] == b[i];
    if AllWellFormed(a + b) {
      GrownTrans(p0, p1, p2, s0, s1, s2);
    }
  }

  ghost function StatsOf(stats: Stats?): StatsValue
    reads stats
  {
    if stats == null then StatsValue(0, 0, 0, 0, 0, 0) else stats.Value()
  }

  /** Over any run of frames and any writer, the receiver gets a subsequence of the NAL units of all the frames, byte
      for byte; where a writer succeeds it is all those that can be sent, and with four bytes of payload or more every
      one, each IDR unit right behind the parameter sets cached by then. All the packets are numbered consecutively;
      every frame has its own timestamp and, on its last packet if at all, its marker; and the statistics are those of
      the whole run. */
  method SendFrames(frames: seq<seq<Pack>>, sink: Sink, rtp: RtpState, frameTicks: Uint32, params: ParamCache?,
                    payloadLimit: nat, stats: Stats?)
    returns (ghost points: seq<Point>)
    requires AllFramesValid(frames) && (params != null ==> params.Valid())
    modifies CacheArrays(params), sink, rtp, stats
    ensures params != null ==> params.Valid()
    ensures CacheValue(params) == CacheAfter(old(CacheValue(params)), UnitsOf(frames))
    ensures Got(old(Received(sink.packets).nals), Received(sink.packets).nals,
                Handed(old(CacheValue(params)), UnitsOf(frames)), Min(payloadLimit, RTP_BUFFER_MAX), sink.Reliable())
    ensures Consecutive(old(sink.packets), sink.packets, old(rtp.seqNo), rtp.seqNo)
    ensures RunSent(frames, |frames|, old(CacheValue(params)), points, frameTicks,
                    old(rtp.Stream(Min(payloadLimit, RTP_BUFFER_MAX))), sink.Reliable())
    ensures points[0] == Point(old(sink.packets), old(rtp.seqNo), old(rtp.timestamp), 0)
    ensures points[|frames|] == Point(sink.packets, rtp.seqNo, rtp.timestamp, points[|frames|].total)
    ensures stats != null ==>
      Counted(Handed(old(CacheValue(params)), UnitsOf(frames)), old(sink.packets), sink.packets, old(stats.totalNals),
              stats.totalNals, old(stats.Value()), stats.Value())
  {
    hide Received, CacheAfter, Handed, Units, AllValid, Got, CacheValue, ParamCache.Valid, FrameOutcome, MarkerExpected,
         Consecutive, Counted, RunSent, FrameBetween, Grown, WellFormed, Wrap32, Stats.Value;
    var f := 0;
    ghost var r0, cache0, limit := Received(sink.packets).nals, CacheValue(params), Min(payloadLimit, RTP_BUFFER_MAX);
    ghost var before0, seq0, stream0 := sink.packets, rtp.seqNo, rtp.Stream(limit);
    ghost var nals0: Uint32, stats0 := if stats == null then 0 else stats.totalNals, StatsOf(stats);
    assert frames[..0] == [];
    points := [Point(sink.packets, rtp.seqNo, rtp.timestamp, 0)];
    NoneHanded(cache0);
    NoneSent(sink.packets, rtp.seqNo, limit, sink.Reliable());
    NoneCounted(sink.packets, nals0, stats0);
    RunNone(frames, cache0, points, frameTicks, stream0, sink.Reliable());
    while f < |frames|
      invariant 0 <= f <= |frames|
      invariant params != null ==> params.Valid()
      invariant CacheValue(params) == CacheAfter(cache0, UnitsOf(frames[..f]))
      invariant Got(r0, Received(sink.packets).nals, Handed(cache0, UnitsOf(frames[..f])), limit, sink.Reliable())
      invariant Consecutive(before0, sink.packets, seq0, rtp.seqNo)
      invariant rtp.Stream(limit) == stream0.(timestamp := rtp.timestamp)
      invariant RunSent(frames, f, cache0, points, frameTicks, stream0, sink.Reliable()) && |points| == f + 1
      invariant points[0] == Point(before0, seq0, stream0.timestamp, 0)
      invariant points[f] == Point(sink.packets, rtp.seqNo, rtp.timestamp, points[f].total)
      invariant stats != null ==>
        Counted(Handed(cache0, UnitsOf(frames[..f])), before0, sink.packets, nals0, stats.totalNals, stats0,
                stats.Value())
    {
      ghost var us, before, seqNo, cache := UnitsOf(frames[..f]), sink.packets, rtp.seqNo, CacheValue(params);
      ghost var handed, p := Handed(cache, Units(frames[f])), points[f];
      ghost var nals, value := if stats == null then 0 else stats.totalNals, StatsOf(stats);
      assert frames[..f + 1][..f] == frames[..f];
      var total := SendFrame(frames[f], sink, rtp, frameTicks, params, payloadLimit, stats);
      ghost var q := Point(sink.packets, rtp.seqNo, rtp.timestamp, total);
      FrameIs(p, q, frames[f], cache, frameTicks, stream0, sink.Reliable());
      RunMore(frames, f, cache0, points, q, frameTicks, stream0, sink.Reliable());
      ConsecutiveTrans(before0, before, sink.packets, seq0, seqNo, rtp.seqNo);
      HandedConcat(cache0, us, Units(frames[f]));
      GotMore(r0, Received(before).nals, Received(sink.packets).nals, Handed(cache0, us), handed, limit,
              sink.Reliable());
      if stats != null {
        FrameCounted(handed, before, sink.packets, nals, stats.totalNals, value, stats.Value());
        CountedMore(Handed(cache0, us), handed, before0, before, sink.packets, nals0, nals, stats.totalNals,
                    stats0, value, stats.Value());
      }
      points := points + [q];
      f := f + 1;
    }
    assert frames[..|frames|] == frames;
  }

  /** What a frame's outcome comes to between two points. */
  lemma FrameIs(p: Point, q: Point, packs: seq<Pack>, cache: Option<Sets>, frameTicks: Uint32, stream: StreamInfo,
                reliable: bool)
    requires AllValid(packs) && stream.maxPayload >= 0 && q.timestamp == Wrap32(p.timestamp + frameTicks)
    requires FrameOutcome(p.packets, q.packets, p.seqNo, q.seqNo, stream.(timestamp := p.timestamp),
                          Handed(cache, Units(packs)), q.total, MarkerExpected(packs, stream.maxPayload), reliable)
    ensures FrameBetween(p, q, packs, cache, frameTicks, stream, reliable)
    ensures Consecutive(p.packets, q.packets, p.seqNo, q.seqNo)
    ensures Got(Received(p.packets).nals, Received(q.packets).nals, Handed(cache, Units(packs)), stream.maxPayload,
                reliable)
  {
    hide Received, Consecutive, Delivers, Count, Handed, Units, MarkerExpected, AllValid;
  }

  lemma FrameCounted(handed: seq<Data>, before: seq<Packet>, after: seq<Packet>, nals0: int, nals1: int,
                     s0: StatsValue, s1: StatsValue)
    requires nals1 == Wrap32(nals0 + |handed|) && (AllWellFormed(handed) ==> Grown(before, after, s0, s1))
    ensures Counted(handed, before, after, nals0, nals1, s0, s1)
  {
  }

  /** From an empty cache, with a writer that succeeds and room for a fragment: what the receiver gets, unit by unit. */
  method SendFromEmpty(frames: seq<seq<Pack>>, sink: Sink, rtp: RtpState, frameTicks: Uint32, params: ParamCache,
                       payloadLimit: nat, stats: Stats?)
    requires AllFramesValid(frames) && params.Valid() && params.Value() == EMPTY && sink.Reliable() && payloadLimit >= 4
    requires AllWellFormed(Expand(EMPTY, H265, UnitsOf(frames)))
    modifies CacheArrays(params), sink, rtp, stats
    ensures var r0, r1 := old(Received(sink.packets).nals), Received(sink.packets).nals;
      && |r0| <= |r1| && r1[..|r0|] == r0
      && forall i :: 0 <= i < |UnitsOf(frames)| ==> InPlace(H265, UnitsOf(frames), i, r1[|r0|..])
  {
    hide Received, Expand, AllValid, ParamCache.Valid, ParamCache.Value, Delivers, WellFormed, InPlace, RunSent,
         Consecutive, Counted;
    ghost var r0, us := Received(sink.packets).nals, UnitsOf(frames);
    var _ := SendFrames(frames, sink, rtp, frameTicks, params, payloadLimit, stats);
    ghost var out := Expand(EMPTY, H265, us);
    assert (r0 + out)[|r0|..] == out && (r0 + out)[..|r0|] == r0;
    forall i | 0 <= i < |us| ensures InPlace(H265, us, i, out) {
      SetsPrecedeIdr(H265, us, i);
    }
  }

  lemma NoneHanded(cache: Option<Sets>)
    ensures CacheAfter(cache, []) == cache && Handed(cache, []) == []
  {
  }

  lemma NoneSent(ps: seq<Packet>, seqNo: Uint16, maxPayload: nat, reliable: bool)
    ensures Got(Received(ps).nals, Received(ps).nals, [], maxPayload, reliable) && Consecutive(ps, ps, seqNo, seqNo)
  {
    hide Received;
    var r := Received(ps).nals;
    assert r + [] == r && r[|r|..] == [];
  }

  lemma NoneCounted(ps: seq<Packet>, nals: Uint32, stats: StatsValue)
    ensures Counted([], ps, ps, nals, nals, stats, stats)
  {
    hide Grown;
    GrownNone(ps, stats);
  }

  // ---- a frame without a marker ----

  /** A frame of one NAL unit and a last pack without a buffer. */
  function UnmarkedFrame(nal: Data): seq<Pack>
    requires |nal| <= 0xFFFF
  {
    var none := seq(PACKET_INFO_CAP, _ => PackInfo(0, 0, 0));
    [Pack(Some(nal), |nal|, 0, 0, none), Pack(None, 0, 0, 0, none)]
  }

  lemma UnmarkedFrameIs(nal: Data)
    requires 0 < |nal| <= 0xFFFF && StripStartCode(nal) == nal
    ensures AllValid(UnmarkedFrame(nal)) && Units(UnmarkedFrame(nal)) == [Unit(nal, NalType(nal[0]))]
    ensures !LastSlotValid(UnmarkedFrame(nal)) && Handed(None, Units(UnmarkedFrame(nal))) == [nal]
  {
    hide Pack.UnitsUpTo, Nals, StripStartCode;
    var packs, us := UnmarkedFrame(nal), [Unit(nal, NalType(nal[0]))];
    OneSlot(packs[0], nal);
    NoSlot(packs[1]);
    assert packs[..1] == [packs[0]] && [packs[0]][..0] == [];
    assert Units(packs[..1]) == [] + us == us;
    assert Units(packs) == us + [];
    OneNal(us[0]);
  }

  /** A pack that lists no NAL units is one itself. */
  lemma OneSlot(pack: Pack, nal: Data)
    requires pack.Valid() && pack.data == Some(nal) && pack.packNum == pack.offset == 0 && pack.length == |nal| > 0
    requires StripStartCode(nal) == nal
    ensures pack.Slots() == 1 && pack.UnitsUpTo(1) == [Unit(nal, NalType(nal[0]))]
  {
    hide StripStartCode;
    assert nal[0..|nal|] == nal;
    assert pack.UnitsUpTo(0) == [];
  }

  lemma NoSlot(pack: Pack)
    requires pack.Valid() && pack.data == None
    ensures pack.Slots() == 0 && pack.UnitsUpTo(0) == []
  {
  }

  lemma OneNal(u: Unit)
    ensures Nals([u]) == [u.nal]
  {
    assert [u][..0] == [] && Nals([u][..0]) == [];
  }

  /** The only unit fits a packet and is not fragmented, but is too long for the queue: it arrives, without a marker. */
  method LoseMarker(nal: Data, sink: Sink, rtp: RtpState, payloadLimit: nat)
    requires WellFormed(nal) && StripStartCode(nal) == nal && sink.Reliable()
    requires 4 <= payloadLimit <= RTP_BUFFER_MAX && |nal| <= payloadLimit < |nal| + 4
    modifies sink, rtp
    ensures Received(sink.packets).nals == old(Received(sink.packets).nals) + [nal]
    ensures Unmarked(sink.packets, |old(sink.packets)|)
  {
    hide Received, StripStartCode, Units, AllValid, LastSlotValid, Handed;
    var packs := UnmarkedFrame(nal);
    UnmarkedFrameIs(nal);
    var _ := SendFrame(packs, sink, rtp, 0, null, payloadLimit, null);
  }
}
