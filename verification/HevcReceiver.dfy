/** A receiver for H.265 over RTP, written from section 4.4 of RFC 7798 and section 5.1 of RFC 3550.
    Nothing here comes from the sender: it is the reference the sender is measured against. */
module HevcReceiver {
  import opened Bytes

  const AP_TYPE := 48
  const FU_TYPE := 49

  /** The fields of a two-byte H.265 NAL unit header (section 1.1.4 of RFC 7798). */
  function NalType(b0: Byte): (r: int)
    ensures 0 <= r < 64
  {
    b0 / 2 % 64
  }

  function Forbidden(b0: Byte): bool { b0 >= 128 }

  function LayerId(n: Data): (r: int)
    ensures 0 <= r < 64
  {
    if |n| < 2 then 0 else n[0] % 2 * 32 + n[1] / 8
  }

  function TidPlus1(n: Data): (r: int)
    ensures 0 <= r < 8
  {
    if |n| < 2 then 1 else n[1] % 8
  }

  /** A NAL unit an H.265 encoder may hand to an RTP sender. */
  ghost predicate WellFormed(n: Data)
  {
    |n| >= 2 && NalType(n[0]) < AP_TYPE
  }

  ghost predicate AllWellFormed(ns: seq<Data>)
  {
    forall i :: 0 <= i < |ns| ==> WellFormed(ns[i])
  }

  /** The aggregation units of section 4.4.2: a 16-bit size and that many bytes, to the end. */
  function ParseAp(body: Data): (r: Option<seq<Data>>)
  {
    if body == [] then Some([])
    else if |body| < 2 then None
    else
      var n := Be16(body[0], body[1]);
      if n == 0 || |body| < 2 + n then None
      else
        match ParseAp(body[2 + n..])
        case None => None
        case Some(rest) => Some([body[2..2 + n]] + rest)
  }

  predicate AnyForbidden(ns: seq<Data>)
  {
    ns != [] && ((|ns[|ns| - 1]| > 0 && Forbidden(ns[|ns| - 1][0])) || AnyForbidden(ns[..|ns| - 1]))
  }

  function MinLayer(ns: seq<Data>): (r: int)
    requires ns != []
    ensures 0 <= r < 64
  {
    var last := LayerId(ns[|ns| - 1]);
    if |ns| == 1 then last
    else
      var rest := MinLayer(ns[..|ns| - 1]);
      if last < rest then last else rest
  }

  function MinTid(ns: seq<Data>): (r: int)
    requires ns != []
    ensures 0 <= r < 8
  {
    var last := TidPlus1(ns[|ns| - 1]);
    if |ns| == 1 then last
    else
      var rest := MinTid(ns[..|ns| - 1]);
      if last < rest then last else rest
  }

  lemma HeaderAppend(ns: seq<Data>, n: Data)
    requires n != []
    ensures AnyForbidden(ns + [n]) == (AnyForbidden(ns) || Forbidden(n[0]))
    ensures ns != [] ==>
      && MinLayer(ns + [n]) == (if LayerId(n) < MinLayer(ns) then LayerId(n) else MinLayer(ns))
      && MinTid(ns + [n]) == (if TidPlus1(n) < MinTid(ns) then TidPlus1(n) else MinTid(ns))
    ensures ns == [] ==> MinLayer(ns + [n]) == LayerId(n) && MinTid(ns + [n]) == TidPlus1(n)
  {
    assert (ns + [n])[..|ns|] == ns;
  }

  /** Section 4.4.2: at least two units; F is set iff it is set in some unit; LayerId and TID are the
      lowest of the units'. */
  predicate ApHeaderOk(p: Data, ns: seq<Data>)
    requires |p| >= 2
  {
    && |ns| >= 2
    && Forbidden(p[0]) == AnyForbidden(ns)
    && LayerId(p) == MinLayer(ns)
    && TidPlus1(p) == MinTid(ns)
  }

  /** The first header byte of the NAL unit a fragment belongs to (section 4.4.3). */
  function FuNalByte0(p: Data): Byte
    requires |p| >= 3
  {
    (if Forbidden(p[0]) then 128 else 0) + p[2] % 64 * 2 + p[0] % 2
  }

  /** What the receiver has handed on, and the NAL unit it is putting together from fragments. */
  datatype Rx = Rx(nals: seq<Data>, partial: Option<Data>)

  function ReceiveFu(rx: Rx, p: Data): Rx
  {
    if |p| <= 3 then rx.(partial := None)                      // an empty fragment
    else
      var start := p[2] >= 128;
      var end := p[2] / 64 % 2 == 1;
      if start && end then rx.(partial := None)                // S and E must not both be set
      else if start then rx.(partial := Some([FuNalByte0(p), p[1]] + p[3..]))
      else if rx.partial.None? || |rx.partial.value| < 2
              || rx.partial.value[0] != FuNalByte0(p) || rx.partial.value[1] != p[1] then rx.(partial := None)
      else
        var nal := rx.partial.value + p[3..];
        if end then Rx(rx.nals + [nal], None) else rx.(partial := Some(nal))
  }

  function ReceiveOne(rx: Rx, p: Data): Rx
  {
    if |p| < 2 then rx.(partial := None)
    else if NalType(p[0]) == AP_TYPE then
      match ParseAp(p[2..])
      case None => rx.(partial := None)
      case Some(ns) => Rx(if ApHeaderOk(p, ns) then rx.nals + ns else rx.nals, None)
    else if NalType(p[0]) == FU_TYPE then ReceiveFu(rx, p)
    else if NalType(p[0]) < AP_TYPE then Rx(rx.nals + [p], None)
    else rx.(partial := None)
  }

  /** Everything the receiver has after the payloads `ps`, in order. */
  function Receive(ps: seq<Data>): Rx
  {
    if ps == [] then Rx([], None)
    else ReceiveOne(Receive(ps[..|ps| - 1]), ps[|ps| - 1])
  }

  lemma ReceiveAppend(ps: seq<Data>, p: Data)
    ensures Receive(ps + [p]) == ReceiveOne(Receive(ps), p)
  {
    assert (ps + [p])[..|ps|] == ps;
  }

  /** One aggregation unit: the size of a NAL unit and its bytes. */
  function ApUnit(n: Data): Data
    requires |n| < 0x1_0000
  {
    [|n| / 256, |n| % 256] + n
  }

  lemma ParseApCons(n: Data, rest: Data)
    requires 0 < |n| < 0x1_0000
    ensures ParseAp(ApUnit(n) + rest)
         == match ParseAp(rest) case None => None case Some(ns) => Some([n] + ns)
  {
    var body := ApUnit(n) + rest;
    assert Be16(body[0], body[1]) == |n|;
    assert body[2..2 + |n|] == n;
    assert body[2 + |n|..] == rest;
  }

  /** The aggregation units of `ns`, one after the other. */
  function ApBody(ns: seq<Data>): Data
    requires forall i :: 0 <= i < |ns| ==> |ns[i]| < 0x1_0000
  {
    if ns == [] then [] else ApUnit(ns[0]) + ApBody(ns[1..])
  }

  lemma {:induction false} ParseApBody(ns: seq<Data>)
    requires forall i :: 0 <= i < |ns| ==> 0 < |ns[i]| < 0x1_0000
    ensures ParseAp(ApBody(ns)) == Some(ns)
  {
    if ns != [] {
      ParseApBody(ns[1..]);
      ParseApCons(ns[0], ApBody(ns[1..]));
      assert [ns[0]] + ns[1..] == ns;
    }
  }

  lemma {:induction false} ApBodyAppend(ns: seq<Data>, n: Data)
    requires |n| < 0x1_0000
    requires forall i :: 0 <= i < |ns| ==> |ns[i]| < 0x1_0000
    ensures ApBody(ns + [n]) == ApBody(ns) + ApUnit(n)
  {
    if ns == [] {
      assert ApBody([n]) == ApUnit(n) + ApBody([]);
    } else {
      assert (ns + [n])[1..] == ns[1..] + [n];
      ApBodyAppend(ns[1..], n);
    }
  }
}
