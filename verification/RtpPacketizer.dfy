/** The RTP packet writer of src/rtp_packetizer.c and its H.265 fragmenter. */
module RtpPacketizer {
  import opened Arith
  import opened Bytes
  import opened HevcReceiver

  const RTP_BUFFER_MAX := 8192
  const RTP_HEADER_SIZE := 12

  /** The fixed header of section 5.1 of RFC 3550. */
  datatype RtpFields = RtpFields(version: int, padding: bool, extension: bool, csrcCount: int,
                                 marker: bool, payloadType: int, seqNo: Uint16, timestamp: int, ssrc: int)

  function ParseHeader(h: Data): RtpFields
    requires |h| == RTP_HEADER_SIZE
  {
    RtpFields(h[0] / 64, h[0] / 32 % 2 == 1, h[0] / 16 % 2 == 1, h[0] % 16,
              h[1] >= 128, h[1] % 128, Be16(h[2], h[3]),
              Be32(h[4], h[5], h[6], h[7]), Be32(h[8], h[9], h[10], h[11]))
  }

  /** A packet as an RTP receiver sees it: its header decoded, and its payload. */
  datatype Packet = Packet(fields: RtpFields, payload: Data)

  predicate Marked(p: Packet) { p.fields.marker }

  function Payloads(ps: seq<Packet>): (r: seq<Data>)
    ensures |r| == |ps|
    ensures forall i :: 0 <= i < |ps| ==> r[i] == ps[i].payload
  {
    seq(|ps|, i requires 0 <= i < |ps| => ps[i].payload)
  }

  lemma PayloadsAppend(ps: seq<Packet>, p: Packet)
    ensures Payloads(ps + [p]) == Payloads(ps) + [p.payload]
  {
  }

  /** What an H.265 receiver makes of all the packets accepted so far. */
  function Received(ps: seq<Packet>): Rx { Receive(Payloads(ps)) }

  lemma ReceivedAppend(ps: seq<Packet>, p: Packet)
    ensures Received(ps + [p]) == ReceiveOne(Received(ps), p.payload)
  {
    PayloadsAppend(ps, p);
    ReceiveAppend(Payloads(ps), p.payload);
  }

  function Header(marker: bool, payloadType: Byte, seqNo: Uint16, timestamp: Uint32, ssrc: Uint32): (h: Data)
    ensures |h| == RTP_HEADER_SIZE
  {
    [0x80, (if marker then 0x80 else 0) + payloadType % 128, seqNo / 0x100, seqNo % 0x100]
    + ToBe32(timestamp) + ToBe32(ssrc)
  }

  /** What the twelve bytes of the header mean to an RTP receiver. */
  lemma HeaderFields(marker: bool, payloadType: Byte, seqNo: Uint16, timestamp: Uint32, ssrc: Uint32)
    ensures ParseHeader(Header(marker, payloadType, seqNo, timestamp, ssrc))
         == RtpFields(2, false, false, 0, marker, payloadType % 128, seqNo, timestamp, ssrc)
  {
    hide ToBe32, Be32, Be16;
    var h := Header(marker, payloadType, seqNo, timestamp, ssrc);
    assert h[4..8] == ToBe32(timestamp) && h[8..12] == ToBe32(ssrc);
    assert forall i :: 0 <= i < 4 ==> h[4 + i] == h[4..8][i] && h[8 + i] == h[8..12][i];
    MarkerByte(marker, payloadType);
    Be16Split(seqNo);
  }

  lemma MarkerByte(marker: bool, payloadType: Byte)
    ensures var b: Byte := (if marker then 0x80 else 0) + payloadType % 128;
      (b >= 128 <==> marker) && b % 128 == payloadType % 128
  {
  }

  lemma Be16Split(n: Uint16)
    ensures Be16(n / 0x100, n % 0x100) == n
  {
  }

  /** The writer callback: call number k succeeds iff `accepts(k)`, and then the packet is out. */
  class Sink {
    const accepts: nat -> bool
    var calls: nat
    var packets: seq<Packet>

    constructor (accepts: nat -> bool)
      ensures this.accepts == accepts && calls == 0 && packets == []
    {
      this.accepts := accepts;
      calls := 0;
      packets := [];
    }

    ghost predicate Reliable() { forall k: nat :: accepts(k) }

    method Write(header: Data, payload1: Data, payload2: Data) returns (ok: bool)
      requires |header| == RTP_HEADER_SIZE
      modifies this
      ensures ok == accepts(old(calls)) && calls == old(calls) + 1
      ensures packets == old(packets) + if ok then [Packet(ParseHeader(header), payload1 + payload2)] else []
    {
      ok := accepts(calls);
      calls := calls + 1;
      if ok {
        packets := packets + [Packet(ParseHeader(header), payload1 + payload2)];
      }
    }
  }

  class RtpState {
    var seqNo: Uint16
    var timestamp: Uint32
    var ssrc: Uint32
    var payloadType: Byte

    constructor (seqNo: Uint16, timestamp: Uint32, ssrc: Uint32, payloadType: Byte)
      ensures this.seqNo == seqNo && this.timestamp == timestamp
      ensures this.ssrc == ssrc && this.payloadType == payloadType
    {
      this.seqNo, this.timestamp, this.ssrc, this.payloadType := seqNo, timestamp, ssrc, payloadType;
    }

    ghost function Stream(maxPayload: int): StreamInfo
      reads this
    {
      StreamInfo(timestamp, ssrc, payloadType % 128, maxPayload)
    }
  }

  /** What all the packets of one frame have in common, and the longest payload allowed. */
  datatype StreamInfo = StreamInfo(timestamp: int, ssrc: int, payloadType: int, maxPayload: int)

  ghost predicate GoodPacket(p: Packet, stream: StreamInfo)
  {
    && p.fields == RtpFields(2, false, false, 0, Marked(p), stream.payloadType, p.fields.seqNo,
                             stream.timestamp, stream.ssrc)
    && 0 < |p.payload| <= stream.maxPayload
  }

  /** From `before` to `after`: packets were only added, numbered consecutively modulo 2^16 from `seq0`, and `seq1`
      comes next. */
  ghost predicate Consecutive(before: seq<Packet>, after: seq<Packet>, seq0: Uint16, seq1: Uint16)
  {
    && |before| <= |after| && after[..|before|] == before
    && (if |before| == |after| then seq1 == seq0
        else after[|before|].fields.seqNo == seq0 && seq1 == Succ16(after[|after| - 1].fields.seqNo))
    && forall i, j :: |before| <= i && j == i + 1 && j < |after|
         ==> after[j].fields.seqNo == Succ16(after[i].fields.seqNo)
  }

  /** The packets added are all of the given stream. */
  ghost predicate Sent(before: seq<Packet>, after: seq<Packet>, seq0: Uint16, seq1: Uint16, stream: StreamInfo)
  {
    && Consecutive(before, after, seq0, seq1)
    && forall i :: |before| <= i < |after| ==> GoodPacket(after[i], stream)
  }

  lemma ConsecutiveTrans(a: seq<Packet>, b: seq<Packet>, c: seq<Packet>, s0: Uint16, s1: Uint16, s2: Uint16)
    requires Consecutive(a, b, s0, s1) && Consecutive(b, c, s1, s2)
    ensures Consecutive(a, c, s0, s2)
  {
    assert forall i :: 0 <= i < |b| ==> c[i] == c[..|b|][i] == b[i];
    assert c[..|a|] == b[..|a|];
  }

  lemma SentNone(a: seq<Packet>, s: Uint16, stream: StreamInfo)
    ensures Sent(a, a, s, s, stream)
  {
  }

  lemma SentTrans(a: seq<Packet>, b: seq<Packet>, c: seq<Packet>, s0: Uint16, s1: Uint16, s2: Uint16,
      stream: StreamInfo)
    requires Sent(a, b, s0, s1, stream) && Sent(b, c, s1, s2, stream)
    ensures Sent(a, c, s0, s2, stream)
  {
    hide Consecutive, GoodPacket;
    ConsecutiveTrans(a, b, c, s0, s1, s2);
    SamePrefix(b, c, s1, s2);
  }

  lemma SamePrefix(b: seq<Packet>, c: seq<Packet>, s1: Uint16, s2: Uint16)
    requires Consecutive(b, c, s1, s2)
    ensures |b| <= |c| && forall i :: 0 <= i < |b| ==> c[i] == b[i]
  {
    assert forall i :: 0 <= i < |b| ==> c[i] == c[..|b|][i];
  }

  lemma SentAppend(a: seq<Packet>, b: seq<Packet>, p: Packet, s0: Uint16, s1: Uint16, stream: StreamInfo)
    requires Sent(a, b, s0, s1, stream) && GoodPacket(p, stream) && p.fields.seqNo == s1
    ensures Sent(a, b + [p], s0, Succ16(s1), stream)
  {
    assert (b + [p])[..|a|] == b[..|a|];
  }

  lemma SentWider(a: seq<Packet>, b: seq<Packet>, s0: Uint16, s1: Uint16, stream: StreamInfo, wider: StreamInfo)
    requires Sent(a, b, s0, s1, stream) && wider == stream.(maxPayload := wider.maxPayload)
    requires stream.maxPayload <= wider.maxPayload
    ensures Sent(a, b, s0, s1, wider)
  {
  }

  /** None of the packets from index `from` on carries the marker bit. */
  ghost predicate Unmarked(ps: seq<Packet>, from: nat)
  {
    forall i :: from <= i < |ps| ==> !Marked(ps[i])
  }

  /** Of the packets from index `from` on, at most the last one carries the marker bit. */
  ghost predicate AtMostLastMarked(ps: seq<Packet>, from: nat)
  {
    forall i :: from <= i < |ps| - 1 ==> !Marked(ps[i])
  }

  ghost predicate LastMarked(ps: seq<Packet>)
  {
    ps != [] && Marked(ps[|ps| - 1])
  }

  /** Of the packets from index `from` on, all but the last have payloads of `size` bytes. */
  ghost predicate FullButLast(ps: seq<Packet>, from: nat, size: int)
  {
    forall i :: from <= i < |ps| - 1 ==> |ps[i].payload| == size
  }

  method BuildHeader(state: RtpState, marker: bool) returns (h: Data)
    ensures |h| == RTP_HEADER_SIZE
    ensures ParseHeader(h) == RtpFields(2, false, false, 0, marker, state.payloadType % 128,
                                        state.seqNo, state.timestamp, state.ssrc)
  {
    hide ParseHeader, Be16, Be32;
    var header := new Byte[RTP_HEADER_SIZE];
    header[0] := 0x80;
    header[1] := (if marker then 0x80 else 0) + state.payloadType % 128;
    header[2] := state.seqNo / 0x100;
    header[3] := state.seqNo % 0x100;
    Be32Split(state.timestamp);
    header[4] := state.timestamp / 0x100_0000;
    header[5] := state.timestamp / 0x1_0000 % 0x100;
    header[6] := state.timestamp / 0x100 % 0x100;
    header[7] := state.timestamp % 0x100;
    Be32Split(state.ssrc);
    header[8] := state.ssrc / 0x100_0000;
    header[9] := state.ssrc / 0x1_0000 % 0x100;
    header[10] := state.ssrc / 0x100 % 0x100;
    header[11] := state.ssrc % 0x100;
    h := header[..];
    assert h == Header(marker, state.payloadType, state.seqNo, state.timestamp, state.ssrc);
    HeaderFields(marker, state.payloadType, state.seqNo, state.timestamp, state.ssrc);
  }

  method SendPacket(state: RtpState, sink: Sink, payload1: Data, payload2: Data, marker: bool)
    returns (ok: bool)
    modifies state`seqNo, sink
    ensures ok == (payload1 != [] && sink.accepts(old(sink.calls)))
    ensures !ok ==> sink.packets == old(sink.packets) && state.seqNo == old(state.seqNo)
    ensures ok ==>
      && |sink.packets| == |old(sink.packets)| + 1
      && sink.packets == old(sink.packets) + [sink.packets[|old(sink.packets)|]]
      && state.seqNo == Succ16(old(state.seqNo))
      && var p := sink.packets[|old(sink.packets)|];
         && p.payload == payload1 + payload2
         && p.fields == RtpFields(2, false, false, 0, marker, state.payloadType % 128,
                                  old(state.seqNo), state.timestamp, state.ssrc)
  {
    if payload1 == [] {
      return false;
    }
    var header := BuildHeader(state, marker);
    ok := sink.Write(header, payload1, payload2);
    if ok {
      state.seqNo := Succ16(state.seqNo);
    }
  }

  /** `RtpPacketizerResult`: what one NAL unit cost. The 32-bit wrap of its counters is applied where they
      are added to the stream's statistics, which gives the same sums modulo 2^32. */
  datatype SendResult = SendResult(packetCount: nat, payloadBytes: nat, fragmented: bool)

  const NO_RESULT := SendResult(0, 0, false)

  /** How many packets of each kind, how many NAL units inside aggregation packets, how many fragments
      that carry both S and E (which section 4.4.3 forbids), how many payload bytes. */
  datatype Tally = Tally(single: nat, ap: nat, apNals: nat, fu: nat, wholeFu: nat, packets: nat, bytes: nat)

  function TallyOne(t: Tally, p: Data): Tally
  {
    var t' := t.(packets := t.packets + 1, bytes := t.bytes + |p|);
    if p != [] && NalType(p[0]) == FU_TYPE then
      t'.(fu := t.fu + 1, wholeFu := t.wholeFu + if |p| > 2 && p[2] >= 192 then 1 else 0)
    else if p != [] && NalType(p[0]) == AP_TYPE then
      t'.(ap := t.ap + 1, apNals := t.apNals + match ParseAp(p[Min(2, |p|)..]) case Some(ns) => |ns| case None => 0)
    else t'.(single := t.single + 1)
  }

  function Count(ps: seq<Packet>): Tally
  {
    if ps == [] then Tally(0, 0, 0, 0, 0, 0, 0)
    else TallyOne(Count(ps[..|ps| - 1]), ps[|ps| - 1].payload)
  }

  lemma CountAppend(ps: seq<Packet>, p: Packet)
    ensures Count(ps + [p]) == TallyOne(Count(ps), p.payload)
  {
    assert (ps + [p])[..|ps|] == ps;
  }

  /** The packets of one NAL unit, fragments or not, added to a tally. */
  function AddResult(t: Tally, result: SendResult): Tally
  {
    t.(single := t.single + if result.fragmented then 0 else result.packetCount,
       fu := t.fu + if result.fragmented then result.packetCount else 0,
       packets := t.packets + result.packetCount, bytes := t.bytes + result.payloadBytes)
  }

  /** `result` accounts for exactly the packets added to `before`, `wholeFu` of which carry both S and E. */
  ghost predicate Accounts(result: SendResult, wholeFu: nat, before: seq<Packet>, after: seq<Packet>)
  {
    && Count(after) == AddResult(Count(before), result).(wholeFu := Count(before).wholeFu + wholeFu)
    && (after == before || result.packetCount == 0 ==> result == NO_RESULT)
  }

  /** The payload header and FU header (section 4.4.3) of a fragment of `data`. */
  function FuHeader(data: Data, start: bool, end: bool): (h: Data)
    requires |data| >= 2
    ensures |h| == 3
  {
    [data[0] / 128 * 128 + FU_TYPE * 2 + data[0] % 2, data[1],
     (if start then 128 else 0) + (if end then 64 else 0) + data[0] / 2 % 64]
  }

  /** What the three bytes say (sections 1.1.4 and 4.4.3): type 49 with the F bit, LayerId and TID of the NAL unit, then
      S, E and its type. */
  lemma FuHeaderMeans(data: Data, start: bool, end: bool)
    requires |data| >= 2
    ensures var h := FuHeader(data, start, end);
      && NalType(h[0]) == FU_TYPE && (h[0] >= 128 <==> data[0] >= 128)
      && LayerId(h) == LayerId(data) && TidPlus1(h) == TidPlus1(data)
      && (h[2] >= 128 <==> start) && (h[2] / 64 % 2 == 1 <==> end) && h[2] % 64 == NalType(data[0])
      && (h[2] >= 192 <==> start && end)
  {
  }

  /** A fragment: its headers and the bytes of `data` from `from` to `to`. */
  function FuPayload(data: Data, from: nat, to: nat, start: bool, end: bool): Data
    requires 2 <= from <= to <= |data|
  {
    FuHeader(data, start, end) + data[from..to]
  }

  /** What a receiver does with one fragment, given what came before it. */
  lemma FuStep(rx: Rx, data: Data, from: nat, to: nat, start: bool, end: bool)
    requires 2 <= from < to <= |data|
    requires start ==> from == 2
    requires !start ==> rx.partial == Some(data[..from])
    ensures ReceiveOne(rx, FuPayload(data, from, to, start, end))
         == if start && end then rx.(partial := None)
            else if end then Rx(rx.nals + [data[..to]], None)
            else rx.(partial := Some(data[..to]))
  {
    var p := FuPayload(data, from, to, start, end);
    assert p[0] / 2 % 64 == FU_TYPE && (p[0] >= 128) == (data[0] >= 128) && p[0] % 2 == data[0] % 2;
    assert p[2] >= 128 <==> start;
    assert p[2] / 64 % 2 == 1 <==> end;
    assert p[2] % 64 == data[0] / 2 % 64;
    assert FuNalByte0(p) == data[0];
    assert p[3..] == data[from..to];
    if start {
      assert [data[0], data[1]] + data[2..to] == data[..to];
    } else {
      assert data[..from] + data[from..to] == data[..to];
    }
  }

  /** The same, for a fragment added to the packets accepted so far. */
  lemma FuReceived(ps: seq<Packet>, p: Packet, data: Data, from: nat, to: nat, start: bool, end: bool)
    requires 2 <= from < to <= |data| && p.payload == FuPayload(data, from, to, start, end)
    requires start ==> from == 2
    requires !start ==> Received(ps).partial == Some(data[..from])
    ensures Received(ps + [p]).nals == Received(ps).nals + if end && !start then [data[..to]] else []
    ensures !end ==> Received(ps + [p]).partial == Some(data[..to])
  {
    ReceivedAppend(ps, p);
    FuStep(Received(ps), data, from, to, start, end);
  }

  lemma AccountsStep(r0: SendResult, before: seq<Packet>, ps: seq<Packet>, p: Packet, r1: SendResult, wholeFu: nat)
    requires Accounts(r0, 0, before, ps) && |before| <= |ps|
    requires p.payload != [] && NalType(p.payload[0]) != AP_TYPE
    requires r1 == SendResult(r0.packetCount + 1, r0.payloadBytes + |p.payload|, NalType(p.payload[0]) == FU_TYPE)
    requires r0 == NO_RESULT || r0.fragmented == r1.fragmented
    requires wholeFu == if r1.fragmented && |p.payload| > 2 && p.payload[2] >= 192 then 1 else 0
    ensures Accounts(r1, wholeFu, before, ps + [p])
  {
    hide Count, ParseAp;
    CountAppend(ps, p);
    assert |ps + [p]| > |before|;
  }

  /** The fragmenter's loop: all but the last `remaining` bytes of `data` have been sent after `before`. */
  ghost predicate FuProgress(before: seq<Packet>, ps: seq<Packet>, data: Data, remaining: int,
                             maxFragment: int, isLast: bool, result: SendResult)
  {
    && 0 <= remaining <= |data| - 2 && maxFragment > 0 && |before| <= |ps|
    && (remaining == |data| - 2 <==> ps == before)
    && (0 < remaining < |data| - 2 ==> |data| - 2 > maxFragment)
    && result.fragmented == (ps != before)
    && Accounts(result, if remaining == 0 && |data| - 2 <= maxFragment then 1 else 0, before, ps)
    && AtMostLastMarked(ps, |before|)
    && FullButLast(ps, |before|, maxFragment + 3)
    && (0 < remaining < |data| - 2 ==> |ps[|ps| - 1].payload| == maxFragment + 3)
    && (if remaining == 0 && isLast then |ps| > |before| && LastMarked(ps) else Unmarked(ps, |before|))
    && (0 < remaining < |data| - 2 ==> Received(ps).partial == Some(data[..|data| - remaining]))
    && Received(ps).nals == Received(before).nals + if remaining == 0 && |data| - 2 > maxFragment then [data] else []
  }

  lemma FuProgressStep(before: seq<Packet>, ps: seq<Packet>, data: Data, remaining: int, maxFragment: int,
                       isLast: bool, result: SendResult, chunk: int, p: Packet)
    requires FuProgress(before, ps, data, remaining, maxFragment, isLast, result)
    requires remaining > 0 && chunk == Min(remaining, maxFragment)
    requires p.payload == FuPayload(data, |data| - remaining, |data| - remaining + chunk,
                                    remaining == |data| - 2, remaining == chunk)
    requires Marked(p) == (remaining == chunk && isLast)
    ensures FuProgress(before, ps + [p], data, remaining - chunk, maxFragment, isLast,
                       SendResult(result.packetCount + 1, result.payloadBytes + chunk + 3, true))
  {
    hide Received, Count;
    var from := |data| - remaining;
    FuHeaderMeans(data, remaining == |data| - 2, remaining == chunk);
    AccountsStep(result, before, ps, p,
                 SendResult(result.packetCount + 1, result.payloadBytes + chunk + 3, true),
                 if remaining == chunk == |data| - 2 then 1 else 0);
    FuReceived(ps, p, data, from, from + chunk, remaining == |data| - 2, remaining == chunk);
    assert data[..|data|] == data;
  }

  /** The two bytes of the payload header of every fragment of `data`, and its NAL unit type. */
  method FuIndicators(data: Data) returns (indicator0: Byte, indicator1: Byte, nalType: Byte)
    requires |data| >= 2
    ensures nalType < 64
    ensures forall start, end ::
      FuHeader(data, start, end)
      == [indicator0, indicator1, (if start then 0x80 else 0) + (if end then 0x40 else 0) + nalType]
  {
    var forbiddenZero := data[0] / 128 * 128;
    var layerId := data[0] % 2 * 32 + data[1] / 8;
    var tidPlus1 := data[1] % 8;
    nalType := data[0] / 2 % 64;
    indicator0 := forbiddenZero + FU_TYPE * 2 + layerId / 32 % 2;
    indicator1 := layerId % 32 * 8 + tidPlus1;
    assert indicator1 == data[1] && layerId / 32 % 2 == data[0] % 2;
  }

  /** What sending one NAL unit did: `total` is |data| iff all of it was accepted. Then the last of its
      packets carries the marker if asked for; otherwise none of them does. `arrives` says whether a
      receiver gets `data`; if not, it gets nothing at all. */
  ghost predicate NalOutcome(before: seq<Packet>, after: seq<Packet>, data: Data, isLast: bool,
                             total: int, result: SendResult, wholeFu: nat, arrives: bool)
  {
    && total <= |data|
    && Accounts(result, wholeFu, before, after)
    && AtMostLastMarked(after, |before|)
    && (if total == |data| && data != [] && isLast then |after| > |before| && LastMarked(after)
        else Unmarked(after, |before|))
    && Received(after).nals == Received(before).nals + if arrives then [data] else []
  }

  lemma NothingSent(ps: seq<Packet>, data: Data, isLast: bool, maxFragment: int)
    ensures NalOutcome(ps, ps, data, isLast, 0, NO_RESULT, 0, false)
    ensures |data| > 2 && maxFragment > 0 ==> FuProgress(ps, ps, data, |data| - 2, maxFragment, isLast, NO_RESULT)
  {
  }

  lemma FuDone(before: seq<Packet>, ps: seq<Packet>, data: Data, remaining: int, maxFragment: int,
               isLast: bool, result: SendResult)
    requires |data| > 2 && FuProgress(before, ps, data, remaining, maxFragment, isLast, result)
    ensures FullButLast(ps, |before|, maxFragment + 3)
    ensures var total := if remaining == 0 then |data| else |data| - 2 - remaining;
      NalOutcome(before, ps, data, isLast, total, result,
                 if remaining == 0 && |data| - 2 <= maxFragment then 1 else 0,
                 remaining == 0 && |data| - 2 > maxFragment)
  {
  }

  /** Room for the bytes of one fragment, after its payload header and FU header. */
  function MaxFragment(maxPayload: nat): int { Min(maxPayload, RTP_BUFFER_MAX) - 3 }

  // A NAL unit too long for one fragment arrives whole or not at all; a shorter one never does,
  // because its only fragment would carry both S and E.
  method SendHevcFu(state: RtpState, sink: Sink, data: Data, isLast: bool, maxPayload: nat)
    returns (total: nat, result: SendResult)
    modifies state`seqNo, sink
    ensures Sent(old(sink.packets), sink.packets, old(state.seqNo), state.seqNo,
                 state.Stream(Min(maxPayload, RTP_BUFFER_MAX)))
    ensures NalOutcome(old(sink.packets), sink.packets, data, isLast, total, result,
                       if data != [] && total == |data| && |data| - 2 <= MaxFragment(maxPayload) then 1 else 0,
                       data != [] && total == |data| && |data| - 2 > MaxFragment(maxPayload))
    ensures result.fragmented == (sink.packets != old(sink.packets))
    ensures FullButLast(sink.packets, |old(sink.packets)|, Min(maxPayload, RTP_BUFFER_MAX))
    ensures sink.Reliable() ==> total == if |data| <= 2 || maxPayload <= 3 then 0 else |data|
  {
    hide Received, Accounts;
    total, result := 0, NO_RESULT;
    NothingSent(sink.packets, data, isLast, MaxFragment(maxPayload));
    if |data| <= 2 || maxPayload <= 3 {
      return;
    }
    var maxFragment := MaxFragment(maxPayload);
    var indicator0, indicator1, nalType := FuIndicators(data);

    var payload, remaining, start := 2, |data| - 2, true;
    ghost var before, seq0 := sink.packets, state.seqNo;
    while remaining > 0
      invariant 0 <= remaining <= |data| - 2
      invariant payload == |data| - remaining && total == |data| - 2 - remaining
      invariant start <==> remaining == |data| - 2
      invariant Sent(before, sink.packets, seq0, state.seqNo, state.Stream(maxFragment + 3))
      invariant FuProgress(before, sink.packets, data, remaining, maxFragment, isLast, result)
    {
      var chunk := if remaining > maxFragment then maxFragment else remaining;
      var end := remaining == chunk;
      var fuHeader := [indicator0, indicator1, (if start then 0x80 else 0) + (if end then 0x40 else 0) + nalType];
      ghost var sofar, seqSofar := sink.packets, state.seqNo;
      var ok := SendPacket(state, sink, fuHeader, data[payload..payload + chunk], end && isLast);
      if !ok {
        FuDone(before, sofar, data, remaining, maxFragment, isLast, result);
        return;
      }
      FuProgressStep(before, sofar, data, remaining, maxFragment, isLast, result, chunk, sink.packets[|sofar|]);
      SentAppend(before, sofar, sink.packets[|sofar|], seq0, seqSofar, state.Stream(maxFragment + 3));
      result := SendResult(result.packetCount + 1, result.payloadBytes + chunk + 3, true);
      total := total + chunk;
      payload := payload + chunk;
      remaining := remaining - chunk;
      start := false;
    }
    FuDone(before, sink.packets, data, 0, maxFragment, isLast, result);
    total := total + 2;
  }

  method SendHevcNal(state: RtpState, sink: Sink, data: Data, isLast: bool, maxPayload: nat)
    returns (total: nat, result: SendResult)
    modifies state`seqNo, sink
    ensures Sent(old(sink.packets), sink.packets, old(state.seqNo), state.seqNo, state.Stream(maxPayload))
    ensures WellFormed(data) ==>
      NalOutcome(old(sink.packets), sink.packets, data, isLast, total, result, 0, total == |data|)
    ensures sink.Reliable() ==> total == if Deliverable(data, maxPayload) then |data| else 0
  {
    hide Received, Accounts;
    NothingSent(sink.packets, data, isLast, 1);
    total, result := 0, NO_RESULT;
    if data == [] {
      return;
    }
    if |data| <= maxPayload {
      ghost var before := sink.packets;
      var ok := SendPacket(state, sink, data, [], isLast);
      if ok {
        result := SendResult(1, |data|, false);
        total := |data|;
        assert data + [] == data;
        if WellFormed(data) {
          ReceivedAppend(before, sink.packets[|before|]);
          AccountsStep(NO_RESULT, before, before, sink.packets[|before|], result, 0);
        }
      }
      return;
    }
    total, result := SendHevcFu(state, sink, data, isLast, maxPayload);
    SentWider(old(sink.packets), sink.packets, old(state.seqNo), state.seqNo,
              state.Stream(Min(maxPayload, RTP_BUFFER_MAX)), state.Stream(maxPayload));
  }

  /** Below four bytes of payload there is no room for a fragment, so only short NAL units can be sent. */
  predicate Deliverable(n: Data, maxPayload: int)
  {
    |n| <= maxPayload || (maxPayload > 3 && |n| > 2)
  }
}
