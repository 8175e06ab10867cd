/** A receiver for single NAL units and FU-A fragments of H.264 over RTP, from sections 5.3, 5.6 and 5.8 of RFC 6184. */
module H264Receiver {
  import opened Bytes

  const FU_A_TYPE := 28

  /** The type of an H.264 NAL unit, in the low five bits of its first byte. */
  function NalType(b0: Byte): (r: int)
    ensures 0 <= r < 32
  {
    b0 % 32
  }

  /** A NAL unit that may travel in a packet of its own (section 5.6). */
  predicate SingleType(n: Data) { n != [] && 1 <= NalType(n[0]) <= 23 }

  datatype Rx = Rx(nals: seq<Data>, partial: Option<Data>)

  /** The first byte of the NAL unit a fragment belongs to: F and NRI of the FU indicator, type of the FU header. */
  function NalByte0(p: Data): Byte
    requires |p| >= 2
  {
    p[0] / 32 * 32 + p[1] % 32
  }

  function ReceiveFuA(rx: Rx, p: Data): Rx
  {
    if |p| <= 2 then rx.(partial := None)
    else
      var start := p[1] >= 128;
      var end := p[1] / 64 % 2 == 1;
      if start && end then rx.(partial := None)                // section 5.8: S and E must not both be set
      else if start then rx.(partial := Some([NalByte0(p)] + p[2..]))
      else if rx.partial.None? || rx.partial.value == [] || rx.partial.value[0] != NalByte0(p) then rx.(partial := None)
      else
        var nal := rx.partial.value + p[2..];
        if end then Rx(rx.nals + [nal], None) else rx.(partial := Some(nal))
  }

  function ReceiveOne(rx: Rx, p: Data): Rx
  {
    if p == [] then rx.(partial := None)
    else if NalType(p[0]) == FU_A_TYPE then ReceiveFuA(rx, p)
    else if SingleType(p) then Rx(rx.nals + [p], None)
    else rx.(partial := None)
  }

  function Receive(ps: seq<Data>): Rx
  {
    if ps == [] then Rx([], None)
    else ReceiveOne(Receive(ps[..|ps| - 1]), ps[|ps| - 1])
  }

  lemma ReceiveAppend(ps: seq<Data>, p: Data)
    ensures Receive(ps + [p]) == ReceiveOne(Receive(ps), p)
  {
    assert (ps + [p])[..|ps|] == ps;
  }
}
