/** Which NAL units of src/star6e_hevc_rtp.c share a packet: as many as fit, and so as few packets as there can be. */
module HevcGrouping {
  import opened Bytes
  import opened HevcReceiver
  import opened RtpPacketizer
  import opened HevcDelivery
  import opened HevcAggregation
  import opened HevcRtp

  /** The groups that go out for the units `us` behind a queue, the last one with the last unit. */
  function Groups(queue: seq<Data>, us: seq<Data>, maxPayload: nat): seq<seq<Data>>
    decreases |us|
  {
    if us == [] then (if queue == [] then [] else [queue])
    else if ApLength(queue + [us[0]]) <= maxPayload then Groups(queue + [us[0]], us[1..], maxPayload)
    else [queue] + Groups([us[0]], us[1..], maxPayload)
  }

  function Joined(gs: seq<seq<Data>>): seq<Data>
  {
    if gs == [] then [] else gs[0] + Joined(gs[1..])
  }

  /** A way to send `us` in order, each group in a packet that is not too long. */
  predicate Packing(gs: seq<seq<Data>>, us: seq<Data>, maxPayload: nat)
  {
    Joined(gs) == us && forall k :: 0 <= k < |gs| ==> gs[k] != [] && ApLength(gs[k]) <= maxPayload
  }

  /** There is room for each unit in an aggregation packet. */
  predicate Short(us: seq<Data>, maxPayload: nat)
  {
    forall i :: 0 <= i < |us| ==> 0 < |us[i]| && 4 + |us[i]| <= maxPayload
  }

  lemma LengthOne(n: Data)
    ensures ApLength([n]) == 4 + |n| && ApLength([]) == 2
  {
    SumLenSingle(n);
  }

  /** The groups are such a way. */
  lemma {:induction false} GroupsPack(queue: seq<Data>, us: seq<Data>, maxPayload: nat)
    requires Short(us, maxPayload) && (queue != [] ==> ApLength(queue) <= maxPayload)
    ensures Packing(Groups(queue, us, maxPayload), queue + us, maxPayload)
    decreases |us|
  {
    hide ApLength;
    if us == [] {
      assert queue + us == queue;
      assert Joined([queue]) == queue + Joined([]);
    } else if ApLength(queue + [us[0]]) <= maxPayload {
      GroupsPack(queue + [us[0]], us[1..], maxPayload);
      assert queue + [us[0]] + us[1..] == queue + us;
    } else {
      LengthOne(us[0]);
      assert [] + [us[0]] == [us[0]];
      GroupsPack([us[0]], us[1..], maxPayload);
      assert [us[0]] + us[1..] == us;
    }
  }

  /** How many groups there are, by the length of what is queued. */
  function Count(length: nat, us: seq<Data>, maxPayload: nat): nat
    decreases |us|
  {
    if us == [] then (if length == 2 then 0 else 1)
    else if length + 2 + |us[0]| <= maxPayload then Count(length + 2 + |us[0]|, us[1..], maxPayload)
    else 1 + Count(4 + |us[0]|, us[1..], maxPayload)
  }

  lemma {:induction false} CountGroups(queue: seq<Data>, us: seq<Data>, maxPayload: nat)
    ensures |Groups(queue, us, maxPayload)| == Count(ApLength(queue), us, maxPayload)
    decreases |us|
  {
    if us == [] {
      assert queue == [] || ApLength(queue) > 2;
    } else {
      hide ApLength;
      ApLengthAppend(queue, us[0]);
      LengthOne(us[0]);
      CountGroups(queue + [us[0]], us[1..], maxPayload);
      CountGroups([us[0]], us[1..], maxPayload);
    }
  }

  /** A longer queue makes for no fewer groups, and for one more at the most. */
  lemma {:induction false} CountGrows(a: nat, b: nat, us: seq<Data>, maxPayload: nat)
    requires 2 <= a <= b
    ensures Count(a, us, maxPayload) <= Count(b, us, maxPayload) <= Count(a, us, maxPayload) + 1
    decreases |us|
  {
    if us != [] {
      var u, rest := us[0], us[1..];
      CountGrows(a + 2 + |u|, b + 2 + |u|, rest, maxPayload);
      CountGrows(4 + |u|, a + 2 + |u|, rest, maxPayload);
    }
  }

  lemma {:induction false} CountFits(length: nat, g: seq<Data>, rest: seq<Data>, maxPayload: nat)
    requires length + 2 * |g| + SumLen(g) <= maxPayload
    ensures Count(length, g + rest, maxPayload) == Count(length + 2 * |g| + SumLen(g), rest, maxPayload)
    decreases |g|
  {
    if g == [] {
      assert g + rest == rest;
    } else {
      SumLenFirst(g);
      assert (g + rest)[1..] == g[1..] + rest;
      CountFits(length + 2 + |g[0]|, g[1..], rest, maxPayload);
    }
  }

  lemma {:induction false} SumLenFirst(ds: seq<Data>)
    requires ds != []
    ensures SumLen(ds) == |ds[0]| + SumLen(ds[1..])
  {
    if |ds| == 1 {
      assert ds[..0] == [] && ds[1..] == [];
    } else {
      SumLenFirst(ds[..|ds| - 1]);
      assert ds[..|ds| - 1][1..] == ds[1..][..|ds| - 2];
    }
  }

  /** No way to send the units in order takes fewer packets. */
  lemma {:induction false} FewestPackets(gs: seq<seq<Data>>, us: seq<Data>, maxPayload: nat)
    requires Packing(gs, us, maxPayload)
    ensures |Groups([], us, maxPayload)| <= |gs|
  {
    CountGroups([], us, maxPayload);
    LengthOne([]);
    CountFewest(gs, maxPayload);
  }

  lemma {:induction false} CountFewest(gs: seq<seq<Data>>, maxPayload: nat)
    requires forall k :: 0 <= k < |gs| ==> gs[k] != [] && ApLength(gs[k]) <= maxPayload
    ensures Count(2, Joined(gs), maxPayload) <= |gs|
  {
    if gs != [] {
      var rest := Joined(gs[1..]);
      CountFewest(gs[1..], maxPayload);
      CountFits(2, gs[0], rest, maxPayload);
      CountGrows(2, ApLength(gs[0]), rest, maxPayload);
    }
  }

  /** The packets from `start` on carry the given groups. */
  ghost predicate CarryAll(ps: seq<Packet>, start: nat, gs: seq<seq<Data>>)
  {
    |ps| == start + |gs| && forall k :: 0 <= k < |gs| ==> Carries(ps[start + k].payload, gs[k])
  }

  /** NAL units that are not too long for an aggregation packet, one after the other: with a writer that does not fail,
      each packet carries its group, and the units cannot be sent in fewer packets. */
  method SendTogether(us: seq<Data>, sink: Sink, rtp: RtpState, ap: ApBuilder, maxPayload: nat, stats: Stats?,
                      ghost log: Log) returns (total: nat)
    requires maxPayload == log.stream.maxPayload && us != [] && Short(us, maxPayload)
    requires InFrame(log, sink, rtp, ap, stats) && NoMarkerYet(log, sink.packets)
    requires sink.Reliable() && ap.nals == []
    modifies ap, ap.payload, sink, rtp`seqNo, stats
    ensures ap.nals == [] && |sink.packets| >= |old(sink.packets)|
    ensures CarryAll(sink.packets, |old(sink.packets)|, Groups([], us, maxPayload))
    ensures forall gs :: Packing(gs, us, maxPayload) ==> |sink.packets| - |old(sink.packets)| <= |gs|
  {
    hide InFrame, NoMarkerYet, MarkersAfter, ApLength, Packing, Groups, Gone, Grouped, CarryAll, ApBuilder.Valid;
    total := 0;
    var i := 0;
    ghost var log', done, start := log, [], |sink.packets|;
    NoneCarried(sink.packets);
    assert us[0..] == us && [] + Groups([], us, maxPayload) == Groups([], us, maxPayload);
    while i < |us|
      invariant 0 <= i <= |us| && log'.stream == log.stream && sink.Reliable()
      invariant InFrame(log', sink, rtp, ap, stats) && (i < |us| ==> NoMarkerYet(log', sink.packets))
      invariant i == |us| ==> ap.nals == []
      invariant CarryAll(sink.packets, start, done)
      invariant Groups([], us, maxPayload) == done + Groups(ap.nals, us[i..], maxPayload)
    {
      ghost var queue, before := ap.nals, sink.packets;
      var isLast := i == |us| - 1;
      var t := SendOrQueue(us[i], sink, rtp, ap, isLast, maxPayload, stats, log');
      total := total + t;
      if !isLast {
        NotLast(log'.Hand(us[i]), t, sink.packets, us[i], sink.Reliable());
      }
      log' := log'.Hand(us[i]).(bytes := log'.bytes + t);
      ghost var gone := Gone(queue, us[i], isLast, maxPayload);
      OneUnit(queue, us, i, maxPayload, before, sink.packets, ap.nals, start, done);
      AppendAssoc(done, gone, Groups(ap.nals, us[i + 1..], maxPayload));
      done := done + gone;
      i := i + 1;
    }
    NothingLeft(maxPayload);
    assert us[i..] == [] && done + [] == done;
    AllCarried(sink.packets, start, done);
    forall gs | Packing(gs, us, maxPayload) ensures |Groups([], us, maxPayload)| <= |gs| {
      FewestPackets(gs, us, maxPayload);
    }
  }

  lemma NoneCarried(ps: seq<Packet>)
    ensures CarryAll(ps, |ps|, [])
  {
  }

  lemma AllCarried(ps: seq<Packet>, start: nat, gs: seq<seq<Data>>)
    requires CarryAll(ps, start, gs)
    ensures |ps| == start + |gs|
  {
  }

  lemma NothingLeft(maxPayload: nat)
    ensures Groups([], [], maxPayload) == []
  {
  }

  /** The groups that go out as one more unit is handed over. */
  function Gone(queue: seq<Data>, data: Data, isLast: bool, maxPayload: nat): seq<seq<Data>>
  {
    if ApLength(queue + [data]) <= maxPayload then (if isLast then [queue + [data]] else [])
    else [queue] + if isLast then [[data]] else []
  }

  lemma OneUnit(queue: seq<Data>, us: seq<Data>, i: nat, maxPayload: nat, before: seq<Packet>, after: seq<Packet>,
                queue': seq<Data>, start: nat, done: seq<seq<Data>>)
    requires i < |us| && Short(us, maxPayload) && CarryAll(before, start, done)
    requires Grouped(queue, us[i], i == |us| - 1, maxPayload, true, before, after, queue')
    ensures CarryAll(after, start, done + Gone(queue, us[i], i == |us| - 1, maxPayload))
    ensures Groups(queue, us[i..], maxPayload)
         == Gone(queue, us[i], i == |us| - 1, maxPayload) + Groups(queue', us[i + 1..], maxPayload)
    ensures i == |us| - 1 ==> queue' == []
  {
    hide ApLength, Carries;
    LengthOne(us[i]);
    assert [] + [us[i]] == [us[i]];
    assert us[i..][0] == us[i] && us[i..][1..] == us[i + 1..];
    assert i == |us| - 1 ==> us[i + 1..] == [];
  }
}
