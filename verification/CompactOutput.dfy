/** Compact mode: packets cut into datagrams, by src/star6e_output.c under a copy of the packet's header, and by
    src/maruko_video.c without any. */
module CompactOutput {
  import opened Bytes
  import opened RtpPacketizer

  /** A datagram socket: call number k succeeds iff `accepts(k)`. */
  class Socket {
    const accepts: nat -> bool
    var calls: nat
    var sent: seq<Data>

    constructor (accepts: nat -> bool)
      ensures this.accepts == accepts && calls == 0 && sent == []
    {
      this.accepts := accepts;
      calls, sent := 0, [];
    }

    ghost predicate Reliable() { forall k: nat :: accepts(k) }

    method Send(d: Data) returns (ok: bool)
      modifies this
      ensures ok == accepts(old(calls)) && calls == old(calls) + 1
      ensures sent == if ok then old(sent) + [d] else old(sent)
    {
      ok := accepts(calls);
      calls := calls + 1;
      if ok {
        sent := sent + [d];
      }
    }
  }

  function WriteBe16(n: Uint16): (b: Data)
    ensures |b| == 2 && Be16(b[0], b[1]) == n
  {
    [n / 0x100, n % 0x100]
  }

  /** What follows the header of each datagram, one after the other. */
  function Bodies(ds: seq<Data>): Data
  {
    if ds == [] then []
    else Bodies(ds[..|ds| - 1]) + (var d := ds[|ds| - 1]; if |d| >= RTP_HEADER_SIZE then d[RTP_HEADER_SIZE..] else [])
  }

  lemma BodiesAppend(ds: seq<Data>, header: Data, body: Data)
    requires |header| == RTP_HEADER_SIZE
    ensures Bodies(ds + [header + body]) == Bodies(ds) + body
  {
    assert (ds + [header + body])[..|ds|] == ds;
    assert (header + body)[RTP_HEADER_SIZE..] == body;
  }

  /** Datagram number `i` of a packet: its header is the packet's, but for its number and the marker. */
  ghost predicate IsFragment(d: Data, packet: Data, i: nat, marker: bool, maxSize: nat)
    requires |packet| >= RTP_HEADER_SIZE
  {
    && RTP_HEADER_SIZE < |d| <= maxSize
    && ParseHeader(d[..RTP_HEADER_SIZE])
       == ParseHeader(packet[..RTP_HEADER_SIZE])
            .(seqNo := (Be16(packet[2], packet[3]) + i) % 0x1_0000, marker := marker && packet[1] >= 128)
  }

  /** The datagrams of the first `offset` bytes of a packet's payload, as long as they may be; with all of it, the last
      one has the marker, and may be shorter. */
  ghost predicate Fragments(ds: seq<Data>, packet: Data, offset: nat, maxSize: nat)
    requires |packet| >= RTP_HEADER_SIZE + offset
  {
    && Bodies(ds) == packet[RTP_HEADER_SIZE..RTP_HEADER_SIZE + offset]
    && (offset > 0 ==> ds != [])
    && (forall i :: 0 <= i < |ds| ==> |ds[i]| == maxSize || (i == |ds| - 1 && RTP_HEADER_SIZE + offset == |packet|))
    && forall i :: 0 <= i < |ds| ==>
         IsFragment(ds[i], packet, i, i == |ds| - 1 && RTP_HEADER_SIZE + offset == |packet|, maxSize)
  }

  /** After `before`, the datagrams of some of the packet's payload were sent, or of all of it. */
  ghost predicate Cut(before: seq<Data>, after: seq<Data>, packet: Data, maxSize: nat, whole: bool)
    requires |packet| >= RTP_HEADER_SIZE
  {
    && |before| <= |after| && after[..|before|] == before
    && exists offset: nat ::
         && RTP_HEADER_SIZE + offset <= |packet| && Fragments(after[|before|..], packet, offset, maxSize)
         && (whole <==> RTP_HEADER_SIZE + offset == |packet|)
  }

  lemma FragmentsStep(ds: seq<Data>, packet: Data, offset: nat, maxSize: nat, header: Data, size: nat)
    requires |packet| >= RTP_HEADER_SIZE + offset + size && size > 0
    requires Fragments(ds, packet, offset, maxSize)
    requires |header| == RTP_HEADER_SIZE && RTP_HEADER_SIZE + size <= maxSize
    requires RTP_HEADER_SIZE + size == maxSize || RTP_HEADER_SIZE + offset + size == |packet|
    requires ParseHeader(header) == ParseHeader(packet[..RTP_HEADER_SIZE])
      .(seqNo := (Be16(packet[2], packet[3]) + |ds|) % 0x1_0000,
        marker := RTP_HEADER_SIZE + offset + size == |packet| && packet[1] >= 128)
    ensures Fragments(ds + [header + packet[RTP_HEADER_SIZE + offset..RTP_HEADER_SIZE + offset + size]], packet,
                      offset + size, maxSize)
  {
    hide ParseHeader, IsFragment, Bodies;
    var from := RTP_HEADER_SIZE + offset;
    var body := packet[from..from + size];
    BodiesAppend(ds, header, body);
    assert packet[RTP_HEADER_SIZE..from] + body == packet[RTP_HEADER_SIZE..from + size];
    FragmentIs(packet, header, body, |ds|, from + size == |packet|, maxSize);
  }

  lemma FragmentIs(packet: Data, header: Data, body: Data, i: nat, marker: bool, maxSize: nat)
    requires |packet| >= RTP_HEADER_SIZE == |header| && body != [] && RTP_HEADER_SIZE + |body| <= maxSize
    requires ParseHeader(header) == ParseHeader(packet[..RTP_HEADER_SIZE])
      .(seqNo := (Be16(packet[2], packet[3]) + i) % 0x1_0000, marker := marker && packet[1] >= 128)
    ensures IsFragment(header + body, packet, i, marker, maxSize)
  {
    hide ParseHeader, Be16;
    assert (header + body)[..RTP_HEADER_SIZE] == header;
  }

  /** The header of a fragment, from the packet's own. */
  lemma FragmentHeader(packet: Data, h: Data, sequence: Uint16, marker: bool)
    requires |packet| >= RTP_HEADER_SIZE == |h| && h[0] == packet[0]
    requires h[1] == packet[1] % 128 + (if marker && packet[1] >= 128 then 128 else 0)
    requires h[2..4] == WriteBe16(sequence)
    requires h[4..8] == ToBe32(Be32(packet[4], packet[5], packet[6], packet[7]))
    requires h[8..12] == ToBe32(Be32(packet[8], packet[9], packet[10], packet[11]))
    ensures ParseHeader(h)
         == ParseHeader(packet[..RTP_HEADER_SIZE]).(seqNo := sequence, marker := marker && packet[1] >= 128)
  {
    hide Be32;
    assert h[2] == h[2..4][0] && h[3] == h[2..4][1];
    assert forall i :: 0 <= i < 4 ==> h[4 + i] == h[4..8][i] && h[8 + i] == h[8..12][i];
  }

  datatype Status = Sent | Failed

  /** A packet that fits is one datagram. A longer one is cut: the datagrams' payloads make up the packet's, their
      numbers go on from the packet's, and only the last has its marker. A failed send leaves the datagrams before
      it. */
  method SendCompactPacket(socket: Socket, packet: Data, maxSize: nat) returns (status: Status, sendErrors: nat)
    modifies socket
    ensures packet == [] ==> status == Failed && socket.sent == old(socket.sent)
    ensures 0 < |packet| <= maxSize ==> socket.sent == old(socket.sent) + if status == Sent then [packet] else []
    ensures |packet| > maxSize && (maxSize <= RTP_HEADER_SIZE || |packet| <= RTP_HEADER_SIZE) ==>
      status == Sent && socket.sent == old(socket.sent)
    ensures |packet| > maxSize > RTP_HEADER_SIZE ==>
      Cut(old(socket.sent), socket.sent, packet, maxSize, status == Sent)
    ensures sendErrors == if status == Failed && packet != [] then 1 else 0
    ensures socket.Reliable() && packet != [] ==> status == Sent
  {
    hide Cut;
    sendErrors := 0;
    if packet == [] {
      return Failed, 0;
    }
    if |packet| <= maxSize {
      var ok := socket.Send(packet);
      if !ok {
        return Failed, 1;
      }
      return Sent, 0;
    }
    if maxSize <= RTP_HEADER_SIZE || |packet| <= RTP_HEADER_SIZE {
      return Sent, 0;
    }
    status, sendErrors := SendFragments(socket, packet, maxSize);
  }

  method SendFragments(socket: Socket, packet: Data, maxSize: nat) returns (status: Status, sendErrors: nat)
    requires |packet| > maxSize > RTP_HEADER_SIZE
    modifies socket
    ensures Cut(old(socket.sent), socket.sent, packet, maxSize, status == Sent)
    ensures sendErrors == if status == Failed then 1 else 0
    ensures socket.Reliable() ==> status == Sent
  {
    hide ParseHeader, ToBe32, Be32, Fragments, Be16, Cut;
    var payloadSize, offset := |packet| - RTP_HEADER_SIZE, 0;
    var marker := packet[1] / 128 * 128;
    var sequence := Be16(packet[2], packet[3]);
    var timestamp := Be32(packet[4], packet[5], packet[6], packet[7]);
    var ssrcId := Be32(packet[8], packet[9], packet[10], packet[11]);
    var maxFragment := maxSize - RTP_HEADER_SIZE;
    ghost var before, ds := socket.sent, [];
    NoFragments(packet, maxSize);
    while offset < payloadSize
      invariant 0 <= offset <= payloadSize
      invariant socket.sent == before + ds && Fragments(ds, packet, offset, maxSize)
      invariant sequence == (Be16(packet[2], packet[3]) + |ds|) % 0x1_0000
    {
      var fragmentSize := payloadSize - offset;
      if fragmentSize > maxFragment {
        fragmentSize := maxFragment;
      }
      var header := BuildFragmentHeader(packet, if offset + fragmentSize >= payloadSize then marker else 0, sequence,
                                        timestamp, ssrcId);
      FragmentHeader(packet, header, sequence, offset + fragmentSize >= payloadSize);
      NextNumber(Be16(packet[2], packet[3]), |ds|);
      sequence := Succ16(sequence);
      var from := RTP_HEADER_SIZE + offset;
      var ok := socket.Send(header + packet[from..from + fragmentSize]);
      if !ok {
        CutAt(before, ds, packet, offset, maxSize);
        return Failed, 1;
      }
      FragmentsStep(ds, packet, offset, maxSize, header, fragmentSize);
      ds := ds + [header + packet[from..from + fragmentSize]];
      offset := offset + fragmentSize;
    }
    CutAt(before, ds, packet, offset, maxSize);
    return Sent, 0;
  }

  lemma NextNumber(first: Uint16, n: nat)
    ensures Succ16((first + n) % 0x1_0000) == (first + n + 1) % 0x1_0000
  {
  }

  lemma CutAt(before: seq<Data>, ds: seq<Data>, packet: Data, offset: nat, maxSize: nat)
    requires |packet| >= RTP_HEADER_SIZE + offset && Fragments(ds, packet, offset, maxSize)
    ensures Cut(before, before + ds, packet, maxSize, RTP_HEADER_SIZE + offset == |packet|)
  {
    hide Fragments;
    assert (before + ds)[|before|..] == ds;
  }

  lemma NoFragments(packet: Data, maxSize: nat)
    requires |packet| >= RTP_HEADER_SIZE
    ensures Fragments([], packet, 0, maxSize)
  {
  }

  method BuildFragmentHeader(packet: Data, marker: Byte, sequence: Uint16, timestamp: Uint32,
      ssrcId: Uint32) returns (h: Data)
    requires |packet| >= RTP_HEADER_SIZE && (marker == 0 || marker == 128)
    ensures |h| == RTP_HEADER_SIZE && h[0] == packet[0] && h[1] == packet[1] % 128 + marker
    ensures h[2..4] == WriteBe16(sequence) && h[4..8] == ToBe32(timestamp) && h[8..12] == ToBe32(ssrcId)
  {
    hide ToBe32, WriteBe16;
    var header := new Byte[RTP_HEADER_SIZE];
    forall i | 0 <= i < RTP_HEADER_SIZE {
      header[i] := packet[i];
    }
    header[1] := packet[1] % 128 + marker;
    var n, t, s := WriteBe16(sequence), ToBe32(timestamp), ToBe32(ssrcId);
    header[2], header[3] := n[0], n[1];
    header[4], header[5], header[6], header[7] := t[0], t[1], t[2], t[3];
    header[8], header[9], header[10], header[11] := s[0], s[1], s[2], s[3];
    h := header[..];
    assert h[2..4] == n && h[4..8] == t && h[8..12] == s;
  }

  const DEFAULT_CHUNK := 1400

  /** Chunks without a header: together they are what was sent of the data, in order, and none is longer than asked. */
  method SendUdpChunks(socket: Socket, data: Data, maxSize: nat) returns (totalSent: nat)
    modifies socket
    ensures totalSent <= |data|
    ensures |socket.sent| >= |old(socket.sent)| && socket.sent[..|old(socket.sent)|] == old(socket.sent)
    ensures Concat(socket.sent[|old(socket.sent)|..]) == data[..totalSent]
    ensures forall i :: |old(socket.sent)| <= i < |socket.sent| ==>
      0 < |socket.sent[i]| <= if maxSize == 0 then DEFAULT_CHUNK else maxSize
    ensures forall i :: |old(socket.sent)| <= i < |socket.sent| - 1 ==>
      |socket.sent[i]| == if maxSize == 0 then DEFAULT_CHUNK else maxSize
    ensures socket.Reliable() ==> totalSent == |data|
  {
    totalSent := 0;
    ghost var before, ds := socket.sent, [];
    var chunkCap := if maxSize != 0 then maxSize else DEFAULT_CHUNK;
    while totalSent < |data|
      invariant totalSent <= |data| && socket.sent == before + ds
      invariant Concat(ds) == data[..totalSent]
      invariant forall i :: 0 <= i < |ds| ==>
        0 < |ds[i]| <= chunkCap && (totalSent < |data| || i < |ds| - 1 ==> |ds[i]| == chunkCap)
    {
      var remaining := |data| - totalSent;
      var chunk := if remaining > chunkCap then chunkCap else remaining;
      var ok := socket.Send(data[totalSent..totalSent + chunk]);
      if !ok {
        break;
      }
      assert (ds + [data[totalSent..totalSent + chunk]])[..|ds|] == ds;
      assert data[..totalSent] + data[totalSent..totalSent + chunk] == data[..totalSent + chunk];
      ds := ds + [data[totalSent..totalSent + chunk]];
      totalSent := totalSent + chunk;
    }
    assert socket.sent[|before|..] == ds;
    forall i | |before| <= i < |socket.sent|
      ensures 0 < |socket.sent[i]| <= chunkCap && (i < |socket.sent| - 1 ==> |socket.sent[i]| == chunkCap)
    {
      assert socket.sent[i] == ds[i - |before|];
    }
  }
}
