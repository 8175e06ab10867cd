/** From the encoder's buffers to the receiver: NAL units laid out one behind the other, each behind its start code, and
    the table that says where each of them stands. */
module HevcLayout {
  import opened Arith
  import opened Bytes
  import opened HevcReceiver
  import opened RtpPacketizer
  import opened ParamSets
  import opened H26xUtil
  import opened HevcDelivery
  import opened HevcRtp

  /** A NAL unit, the kind of its start code, and the type the encoder reports for it. */
  datatype Piece = Piece(long: bool, nal: Data, nalType: Byte)
  {
    function Bytes(): (d: Data)
      ensures |d| == (if long then 4 else 3) + |nal|
    {
      (if long then [0, 0, 0, 1] else [0, 0, 1]) + nal
    }

    /** Some bytes, not behind another start code. */
    predicate Clean()
    {
      nal != [] && !([0, 0, 1] <= nal) && !([0, 0, 0, 1] <= nal)
    }
  }

  function Laid(ps: seq<Piece>): Data
  {
    if ps == [] then [] else Laid(ps[..|ps| - 1]) + ps[|ps| - 1].Bytes()
  }

  /** What the encoder hands over in one pack: a buffer of NAL units with a table of them, or of one without. */
  datatype Layout = Listed(front: Data, pieces: seq<Piece>, back: Data) | Single(front: Data, piece: Piece)
  {
    function Pieces(): seq<Piece> { if Listed? then pieces else [piece] }

    function Buffer(): Data { if Listed? then front + (Laid(pieces) + back) else front + piece.Bytes() }

    /** Up to eight NAL units that are no start codes. Without a table the type is in the header. */
    ghost predicate Ok()
    {
      && (Listed? ==> 1 <= |pieces| <= 8 && forall i :: 0 <= i < |pieces| ==> pieces[i].Clean())
      && (Single? ==> piece.Clean() && piece.nalType == NalType(piece.nal[0]))
    }

    /** The pack says where everything is. */
    ghost predicate Of(pack: Pack)
    {
      && |pack.info| == 8 && pack.data.Some? && pack.length == |Buffer()| && Buffer() <= pack.data.value
      && (Single? ==> pack.packNum == 0 && pack.offset == |front|)
      && (Listed? ==> (pack.packNum == |pieces| || (pack.packNum > 8 && |pieces| == 8))
                      && |pieces| <= 8
                      && forall k :: 0 <= k < |pieces| ==>
                           && pack.info[k].offset == |front| + |Laid(pieces[..k])|
                           && pack.info[k].length == |pieces[k].Bytes()|
                           && pack.info[k].nalType == pieces[k].nalType)
    }
  }

  function UnitOf(p: Piece): Unit { Unit(p.nal, p.nalType) }

  function UnitsOfPieces(ps: seq<Piece>): seq<Unit>
  {
    if ps == [] then [] else UnitsOfPieces(ps[..|ps| - 1]) + [UnitOf(ps[|ps| - 1])]
  }

  /** All the NAL units of a frame, in order. */
  function AllPieces(ls: seq<Layout>): seq<Piece>
  {
    if ls == [] then [] else AllPieces(ls[..|ls| - 1]) + ls[|ls| - 1].Pieces()
  }

  function NalsOf(ps: seq<Piece>): (ns: seq<Data>)
    ensures |ns| == |ps| && forall i :: 0 <= i < |ps| ==> ns[i] == ps[i].nal
  {
    seq(|ps|, i requires 0 <= i < |ps| => ps[i].nal)
  }

  /** A piece without its start code. */
  lemma StripPiece(p: Piece)
    requires p.Clean()
    ensures StripStartCode(p.Bytes()) == p.nal
  {
    assert !LongCode(p.nal) && !ShortCode(p.nal);
    if p.long {
      assert p.Bytes()[4..] == p.nal;
    } else {
      assert p.Bytes()[3..] == p.nal;
    }
  }

  /** Each piece stands behind those before it. */
  lemma {:induction false} LaidAt(ps: seq<Piece>, k: nat, back: Data)
    requires k < |ps|
    ensures var from := |Laid(ps[..k])|;
      && from + |ps[k].Bytes()| <= |Laid(ps)| && (Laid(ps) + back)[from..from + |ps[k].Bytes()|] == ps[k].Bytes()
    decreases |ps|
  {
    var front, last := ps[..|ps| - 1], ps[|ps| - 1].Bytes();
    if k == |ps| - 1 {
      assert ps[..k] == front;
      assert (Laid(front) + last + back)[|Laid(front)|..|Laid(front)| + |last|] == last;
    } else {
      LaidAt(front, k, last + back);
      assert front[..k] == ps[..k];
      assert Laid(front) + last + back == Laid(front) + (last + back);
    }
  }

  lemma SliceBehind(front: Data, rest: Data, more: Data, from: nat, to: nat)
    requires from <= to <= |rest|
    ensures (front + rest + more)[|front| + from..|front| + to] == rest[from..to]
  {
  }

  /** The slot of a piece holds it. */
  lemma UnitAtPiece(l: Layout, pack: Pack, k: nat)
    requires l.Listed? && l.Ok() && l.Of(pack) && k < |l.pieces|
    ensures pack.Valid() && pack.Slots() == |l.pieces| && pack.UnitAt(k) == Some(UnitOf(l.pieces[k]))
  {
    hide StripStartCode, Laid;
    var rest, spare := Laid(l.pieces) + l.back, pack.data.value[pack.length..];
    var from, p := |Laid(l.pieces[..k])|, l.pieces[k];
    LaidAt(l.pieces, k, l.back);
    assert pack.data.value == l.front + rest + spare;
    SliceBehind(l.front, rest, spare, from, from + |p.Bytes()|);
    StripPiece(p);
  }

  /** A slot that is empty or reaches past the end of the pack describes nothing, and neither does a pack without a
      table that has nothing behind its offset. */
  lemma NothingThere(pack: Pack, k: nat)
    requires pack.Valid() && k < pack.Slots()
    ensures
      pack.packNum > 0 && (pack.info[k].length == 0 || pack.info[k].offset + pack.info[k].length > pack.length) ==>
      pack.UnitAt(k) == None
    ensures pack.packNum == 0 && pack.offset >= pack.length ==> pack.UnitAt(k) == None
  {
    hide StripStartCode;
  }

  lemma {:induction false} ListedUnits(l: Layout, pack: Pack, k: nat)
    requires l.Listed? && l.Ok() && l.Of(pack) && k <= |l.pieces|
    ensures pack.Valid() && pack.Slots() == |l.pieces| && pack.UnitsUpTo(k) == UnitsOfPieces(l.pieces[..k])
  {
    hide Layout.Of, Layout.Ok, Pack.UnitAt;
    SomePieces(l);
    UnitAtPiece(l, pack, 0);
    if k > 0 {
      ListedUnits(l, pack, k - 1);
      UnitAtPiece(l, pack, k - 1);
      assert l.pieces[..k][..k - 1] == l.pieces[..k - 1];
    }
  }

  lemma SomePieces(l: Layout)
    requires l.Ok()
    ensures l.Pieces() != []
  {
  }

  /** The units of a pack are the NAL units laid out in it, with their types, in order. */
  lemma PackUnits(l: Layout, pack: Pack)
    requires l.Ok() && l.Of(pack)
    ensures pack.Valid() && pack.UnitsUpTo(pack.Slots()) == UnitsOfPieces(l.Pieces())
    ensures pack.Slots() > 0 && pack.UnitAt(pack.Slots() - 1).Some?
  {
    hide StripStartCode, Laid;
    if l.Listed? {
      ListedUnits(l, pack, |l.pieces|);
      UnitAtPiece(l, pack, |l.pieces| - 1);
      assert l.pieces[..|l.pieces|] == l.pieces;
    } else {
      assert pack.data.value[|l.front|..pack.length] == l.piece.Bytes();
      StripPiece(l.piece);
      assert [l.piece][..0] == [];
      assert pack.UnitsUpTo(0) == [] && UnitsOfPieces([l.piece][..0]) == [];
    }
  }

  ghost predicate LaidOut(packs: seq<Pack>, ls: seq<Layout>)
  {
    |packs| == |ls| && forall i :: 0 <= i < |ls| ==> ls[i].Ok() && ls[i].Of(packs[i])
  }

  lemma {:induction false} UnitsConcat(a: seq<Piece>, b: seq<Piece>)
    ensures UnitsOfPieces(a + b) == UnitsOfPieces(a) + UnitsOfPieces(b)
  {
    if b == [] {
      assert a + b == a;
    } else {
      UnitsConcat(a, b[..|b| - 1]);
      assert (a + b)[..|a + b| - 1] == a + b[..|b| - 1];
    }
  }

  /** The units of a frame are all those laid out in its packs. */
  lemma {:induction false} FrameUnits(packs: seq<Pack>, ls: seq<Layout>)
    requires LaidOut(packs, ls)
    ensures AllValid(packs) && Units(packs) == UnitsOfPieces(AllPieces(ls))
    ensures packs != [] ==> LastSlotValid(packs) && AllPieces(ls) != []
  {
    hide Layout.Ok, Layout.Of, Pack.Valid, Pack.UnitsUpTo, Pack.Slots, Pack.UnitAt, Layout.Pieces;
    forall i | 0 <= i < |packs| ensures packs[i].Valid() {
      PackUnits(ls[i], packs[i]);
    }
    if packs != [] {
      var n := |packs| - 1;
      FrameUnits(packs[..n], ls[..n]);
      PackUnits(ls[n], packs[n]);
      SomePieces(ls[n]);
      UnitsConcat(AllPieces(ls[..n]), ls[n].Pieces());
    }
  }

  lemma {:induction false} NalsOfUnits(ps: seq<Piece>)
    ensures Nals(UnitsOfPieces(ps)) == NalsOf(ps)
    ensures |UnitsOfPieces(ps)| == |ps| && (ps != [] ==> UnitsOfPieces(ps)[|ps| - 1].nal == ps[|ps| - 1].nal)
  {
    if ps != [] {
      NalsOfUnits(ps[..|ps| - 1]);
      assert NalsOf(ps) == NalsOf(ps[..|ps| - 1]) + [ps[|ps| - 1].nal];
    }
  }

  /** A frame laid out in the encoder's buffers: a receiver gets exactly these NAL units, in order, and the last
      packet is marked. */
  method SendLaidOut(packs: seq<Pack>, ghost ls: seq<Layout>, sink: Sink, rtp: RtpState, frameTicks: Uint32,
                     payloadLimit: nat)
    requires LaidOut(packs, ls) && packs != [] && sink.Reliable() && payloadLimit >= 4
    requires AllWellFormed(NalsOf(AllPieces(ls)))
    modifies sink, rtp
    ensures Received(sink.packets).nals == old(Received(sink.packets).nals) + NalsOf(AllPieces(ls))
    ensures LastMarked(sink.packets)
  {
    hide Received, Units, AllPieces, LaidOut, WellFormed, Nals, UnitsOfPieces, NalsOf, LastSlotValid, AllValid;
    FrameUnits(packs, ls);
    ghost var ps := AllPieces(ls);
    NalsOfUnits(ps);
    ghost var limit := Min(payloadLimit, RTP_BUFFER_MAX);
    LastDeliverable(ps, limit);
    var _ := SendFrame(packs, sink, rtp, frameTicks, null, payloadLimit, null);
  }

  lemma LastDeliverable(ps: seq<Piece>, limit: nat)
    requires ps != [] && AllWellFormed(NalsOf(ps)) && limit >= 4
    ensures Deliverable(ps[|ps| - 1].nal, limit)
  {
    assert WellFormed(NalsOf(ps)[|ps| - 1]);
  }

  /** The same with a cache, whatever it holds: what is handed over for these units. */
  method SendLaidOutCached(packs: seq<Pack>, ghost ls: seq<Layout>, sink: Sink, rtp: RtpState, frameTicks: Uint32,
                           params: ParamCache, payloadLimit: nat)
    requires LaidOut(packs, ls) && sink.Reliable() && payloadLimit >= 4 && params.Valid()
    requires AllWellFormed(Expand(params.Value(), H265, UnitsOfPieces(AllPieces(ls))))
    modifies CacheArrays(params), sink, rtp
    ensures Received(sink.packets).nals
         == old(Received(sink.packets).nals) + Expand(old(params.Value()), H265, UnitsOfPieces(AllPieces(ls)))
    ensures params.Valid() && params.Value() == After(old(params.Value()), H265, UnitsOfPieces(AllPieces(ls)))
  {
    hide Received, Units, AllPieces, LaidOut, WellFormed, UnitsOfPieces, LastSlotValid, AllValid, Expand, After;
    FrameUnits(packs, ls);
    var _ := SendFrame(packs, sink, rtp, frameTicks, params, payloadLimit, null);
  }
}
