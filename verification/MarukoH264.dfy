/** The H.264 sender of src/maruko_video.c: single NAL unit packets and FU-A fragments. */
module MarukoH264 {
  import opened Arith
  import opened Bytes
  import opened RtpPacketizer
  import Rx264 = H264Receiver

  /** What an H.264 receiver makes of all the packets accepted so far. */
  function Received264(ps: seq<Packet>): Rx264.Rx { Rx264.Receive(Payloads(ps)) }

  lemma Received264Append(ps: seq<Packet>, p: Packet)
    ensures Received264(ps + [p]) == Rx264.ReceiveOne(Received264(ps), p.payload)
  {
    PayloadsAppend(ps, p);
    Rx264.ReceiveAppend(Payloads(ps), p.payload);
  }

  /** A NAL unit with its forbidden bit cleared. */
  function Cleared(data: Data): (r: Data)
    requires data != []
    ensures |r| == |data| && (r == data <==> data[0] < 128)
  {
    [data[0] % 128] + data[1..]
  }

  /** FU indicator and FU header (section 5.8 of RFC 6184). */
  function FuHeader(data: Data, start: bool, end: bool): (h: Data)
    requires data != []
    ensures |h| == 2
  {
    [data[0] / 32 % 4 * 32 + Rx264.FU_A_TYPE, (if start then 128 else 0) + (if end then 64 else 0) + data[0] % 32]
  }

  function FuPayload(data: Data, from: nat, to: nat, start: bool, end: bool): (p: Data)
    requires 1 <= from <= to <= |data|
    ensures |p| == 2 + (to - from)
  {
    FuHeader(data, start, end) + data[from..to]
  }

  lemma FuHeaderMeans(data: Data, start: bool, end: bool)
    requires data != []
    ensures var h := FuHeader(data, start, end);
      && h[0] % 32 == Rx264.FU_A_TYPE && h[0] / 32 * 32 + h[1] % 32 == data[0] % 128
      && (h[1] >= 128 <==> start) && (h[1] / 64 % 2 == 1 <==> end)
  {
    FuIndicatorMeans(data[0]);
    FuFlagsMean(data[0] % 32, start, end);
  }

  /** Header and fragment of a packet, taken apart. */
  lemma FuPayloadParts(data: Data, from: nat, to: nat, start: bool, end: bool)
    requires 1 <= from <= to <= |data|
    ensures var p, h := FuPayload(data, from, to, start, end), FuHeader(data, start, end);
      p[0] == h[0] && p[1] == h[1] && p[2..] == data[from..to]
  {
    hide FuHeader;
    AppendTail(FuHeader(data, start, end), data[from..to]);
  }

  lemma FuIndicatorMeans(b0: Byte)
    ensures var i := b0 / 32 % 4 * 32 + Rx264.FU_A_TYPE;
      i % 32 == Rx264.FU_A_TYPE && i / 32 * 32 + b0 % 32 == b0 % 128
  {
  }

  lemma FuFlagsMean(nalType: nat, start: bool, end: bool)
    requires nalType < 32
    ensures var h := (if start then 128 else 0) + (if end then 64 else 0) + nalType;
      h % 32 == nalType && (h >= 128 <==> start) && (h / 64 % 2 == 1 <==> end)
  {
  }

  /** What a receiver does with one fragment, given what came before it. */
  lemma FuStep(rx: Rx264.Rx, data: Data, from: nat, to: nat, start: bool, end: bool)
    requires 1 <= from < to <= |data|
    requires start ==> from == 1
    requires !start ==> rx.partial == Some(Cleared(data)[..from])
    ensures Rx264.ReceiveOne(rx, FuPayload(data, from, to, start, end))
         == if start && end then rx.(partial := None)
            else if end then Rx264.Rx(rx.nals + [Cleared(data)[..to]], None)
            else rx.(partial := Some(Cleared(data)[..to]))
  {
    hide FuHeader, FuPayload;
    var c := Cleared(data);
    FuPayloadParts(data, from, to, start, end);
    FuHeaderMeans(data, start, end);
    assert data[from..to] == c[from..to];
    if start {
      assert [c[0]] + c[1..to] == c[..to];
    } else {
      assert c[..from] + c[from..to] == c[..to];
    }
  }

  lemma FuReceived(ps: seq<Packet>, p: Packet, data: Data, from: nat, to: nat, start: bool, end: bool)
    requires 1 <= from < to <= |data| && p.payload == FuPayload(data, from, to, start, end)
    requires start ==> from == 1
    requires !start ==> Received264(ps).partial == Some(Cleared(data)[..from])
    ensures Received264(ps + [p]).nals == Received264(ps).nals + if end && !start then [Cleared(data)[..to]] else []
    ensures !end ==> Received264(ps + [p]).partial == Some(Cleared(data)[..to])
  {
    hide Received264, FuPayload, Cleared;
    Received264Append(ps, p);
    FuStep(Received264(ps), data, from, to, start, end);
  }

  /** The fragmenter's loop: all but the last `remaining` bytes of `data` have been sent after `before`. */
  ghost predicate FuProgress(before: seq<Packet>, ps: seq<Packet>, data: Data, remaining: int, maxFragment: int,
      isLast: bool)
  {
    && 0 <= remaining <= |data| - 1 && maxFragment > 0 && |before| <= |ps|
    && (remaining == |data| - 1 <==> ps == before)
    && (0 < remaining < |data| - 1 ==> |data| - 1 > maxFragment)
    && AtMostLastMarked(ps, |before|)
    && FullButLast(ps, |before|, maxFragment + 2)
    && (0 < remaining < |data| - 1 ==> |ps[|ps| - 1].payload| == maxFragment + 2)
    && (if remaining == 0 && isLast then |ps| > |before| && LastMarked(ps) else Unmarked(ps, |before|))
    && (0 < remaining < |data| - 1 ==> Received264(ps).partial == Some(Cleared(data)[..|data| - remaining]))
    && Received264(ps).nals
       == Received264(before).nals + if remaining == 0 && |data| - 1 > maxFragment then [Cleared(data)] else []
  }

  lemma FuProgressStep(before: seq<Packet>, ps: seq<Packet>, data: Data, remaining: int, maxFragment: int,
                       isLast: bool, chunk: int, p: Packet)
    requires FuProgress(before, ps, data, remaining, maxFragment, isLast)
    requires remaining > 0 && chunk == Min(remaining, maxFragment)
    requires p.payload == FuPayload(data, |data| - remaining, |data| - remaining + chunk,
                                    remaining == |data| - 1, remaining == chunk)
    requires Marked(p) == (remaining == chunk && isLast)
    ensures FuProgress(before, ps + [p], data, remaining - chunk, maxFragment, isLast)
  {
    hide Received264, FuPayload, Cleared;
    var from := |data| - remaining;
    FuReceived(ps, p, data, from, from + chunk, remaining == |data| - 1, remaining == chunk);
    assert |ps + [p]| > |before|;
    assert Cleared(data)[..|data|] == Cleared(data);
  }

  /** What sending one NAL unit did: the marker is where it was asked for, if all was accepted, and a receiver gets
      the given NAL units. */
  ghost predicate Outcome(before: seq<Packet>, after: seq<Packet>, data: Data, isLast: bool, whole: bool,
      received: seq<Data>)
  {
    && AtMostLastMarked(after, |before|)
    && (if whole && isLast then |after| > |before| && LastMarked(after) else Unmarked(after, |before|))
    && Received264(after).nals == Received264(before).nals + received
  }

  lemma NothingSent(ps: seq<Packet>, data: Data, isLast: bool, maxFragment: int)
    ensures Outcome(ps, ps, data, isLast, false, [])
    ensures |data| > 1 && maxFragment > 0 ==> FuProgress(ps, ps, data, |data| - 1, maxFragment, isLast)
    ensures FullButLast(ps, |ps|, maxFragment + 2)
  {
    hide Received264;
    assert Received264(ps).nals + [] == Received264(ps).nals;
  }

  lemma FuDone(before: seq<Packet>, ps: seq<Packet>, data: Data, remaining: int, maxFragment: int, isLast: bool)
    requires |data| > 1 && FuProgress(before, ps, data, remaining, maxFragment, isLast)
    ensures FullButLast(ps, |before|, maxFragment + 2)
    ensures Outcome(before, ps, data, isLast, remaining == 0,
                    if remaining == 0 && |data| - 1 > maxFragment then [Cleared(data)] else [])
  {
    hide Received264, Cleared;
  }

  method SendFuH264(rtp: RtpState, sink: Sink, data: Data, isLast: bool, maxPayload: nat) returns (total: nat)
    modifies rtp`seqNo, sink
    ensures Sent(old(sink.packets), sink.packets, old(rtp.seqNo), rtp.seqNo,
                 rtp.Stream(Min(maxPayload, RTP_BUFFER_MAX)))
    ensures Outcome(old(sink.packets), sink.packets, data, isLast, data != [] && total == |data|,
                    if data != [] && total == |data| && |data| - 1 > Min(maxPayload, RTP_BUFFER_MAX) - 2
                      then [Cleared(data)] else [])
    ensures FullButLast(sink.packets, |old(sink.packets)|, Min(maxPayload, RTP_BUFFER_MAX))
    ensures total <= |data|
    ensures sink.Reliable() ==> total == if |data| <= 1 || maxPayload <= 2 then 0 else |data|
  {
    hide Received264, FuPayload, Cleared, FuProgress, Outcome, Sent, FullButLast;
    total := 0;
    SentNone(sink.packets, rtp.seqNo, rtp.Stream(Min(maxPayload, RTP_BUFFER_MAX)));
    NothingSent(sink.packets, data, isLast, Min(maxPayload, RTP_BUFFER_MAX) - 2);
    if |data| <= 1 || maxPayload <= 2 {
      return;
    }
    var nalNri, nalType := data[0] / 32 % 4 * 32, data[0] % 32;
    var fuIndicator := nalNri + Rx264.FU_A_TYPE;
    var maxFragment := (if maxPayload > RTP_BUFFER_MAX then RTP_BUFFER_MAX else maxPayload) - 2;
    var payload, remaining, start := 1, |data| - 1, true;
    var state := new RtpState(rtp.seqNo, rtp.timestamp, rtp.ssrc, rtp.payloadType);
    ghost var before, seq0, stream := sink.packets, rtp.seqNo, rtp.Stream(maxFragment + 2);
    while remaining > 0
      invariant 0 <= remaining <= |data| - 1 && rtp.seqNo == seq0
      invariant payload == |data| - remaining && total == |data| - 1 - remaining
      invariant start <==> remaining == |data| - 1
      invariant fresh(state) && state.Stream(maxFragment + 2) == stream
      invariant Sent(before, sink.packets, seq0, state.seqNo, stream)
      invariant FuProgress(before, sink.packets, data, remaining, maxFragment, isLast)
    {
      var chunk := if remaining > maxFragment then maxFragment else remaining;
      var end := remaining == chunk;
      var fuHdr := [fuIndicator, (if start then 0x80 else 0) + (if end then 0x40 else 0) + nalType];
      ghost var sofar, seqSofar := sink.packets, state.seqNo;
      FuPayloadIs(data, payload, payload + chunk, start, end);
      var ok := SendPacket(state, sink, fuHdr, data[payload..payload + chunk], end && isLast);
      if !ok {
        FuDone(before, sofar, data, remaining, maxFragment, isLast);
        rtp.seqNo := state.seqNo;
        return;
      }
      FuProgressStep(before, sofar, data, remaining, maxFragment, isLast, chunk, sink.packets[|sofar|]);
      SentAppend(before, sofar, sink.packets[|sofar|], seq0, seqSofar, stream);
      total := total + chunk;
      payload := payload + chunk;
      remaining := remaining - chunk;
      start := false;
    }
    FuDone(before, sink.packets, data, 0, maxFragment, isLast);
    rtp.seqNo := state.seqNo;
    total := total + 1;
  }

  lemma FuPayloadIs(data: Data, from: nat, to: nat, start: bool, end: bool)
    requires 1 <= from <= to <= |data|
    ensures FuPayload(data, from, to, start, end)
         == [data[0] / 32 % 4 * 32 + Rx264.FU_A_TYPE,
             (if start then 0x80 else 0) + (if end then 0x40 else 0) + data[0] % 32] + data[from..to]
  {
  }

  /** A NAL unit that fits a packet arrives as it is. A longer one arrives with its forbidden bit cleared, which is as
      it is just when that bit is zero. */
  method SendNalH264(rtp: RtpState, sink: Sink, data: Data, isLast: bool, maxPayload: nat) returns (total: nat)
    modifies rtp`seqNo, sink
    ensures Sent(old(sink.packets), sink.packets, old(rtp.seqNo), rtp.seqNo, rtp.Stream(maxPayload))
    ensures total <= |data|
    ensures Rx264.SingleType(data) ==>
      Outcome(old(sink.packets), sink.packets, data, isLast, total == |data|,
              if total < |data| then [] else if |data| <= maxPayload then [data] else [Cleared(data)])
    ensures sink.Reliable() ==> total == if |data| <= maxPayload || (maxPayload > 2 && |data| > 1) then |data| else 0
  {
    hide Received264, Cleared;
    total := 0;
    assert Received264(sink.packets).nals + [] == Received264(sink.packets).nals;
    if data == [] {
      return;
    }
    if |data| <= maxPayload {
      var state := new RtpState(rtp.seqNo, rtp.timestamp, rtp.ssrc, rtp.payloadType);
      ghost var before, seq0, stream := sink.packets, rtp.seqNo, rtp.Stream(maxPayload);
      var ok := SendPacket(state, sink, data, [], isLast);
      rtp.seqNo := state.seqNo;
      if ok {
        total := |data|;
        assert data + [] == data;
        Received264Append(before, sink.packets[|before|]);
        SentAppend(before, before, sink.packets[|before|], seq0, seq0, stream);
      }
      return;
    }
    total := SendFuH264(rtp, sink, data, isLast, maxPayload);
    SentWider(old(sink.packets), sink.packets, old(rtp.seqNo), rtp.seqNo, rtp.Stream(Min(maxPayload, RTP_BUFFER_MAX)),
              rtp.Stream(maxPayload));
  }
}
