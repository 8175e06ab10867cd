/** What a call that writes to the ring of include/venc_ring.h comes to, and how soon either side's calls are done. */
module VencWrite {
  import opened Arith
  import opened Bytes
  import opened VencRing

  /** The producer makes no other call. */
  ghost predicate NoWrites(actions: seq<Action>) { forall i :: 0 <= i < |actions| ==> !actions[i].Write? }

  /** How many statements of its own a side runs. */
  function Steps(actions: seq<Action>, a: Action): nat
  {
    if actions == [] then 0
    else Steps(actions[..|actions| - 1], a) + if actions[|actions| - 1] == a then 1 else 0
  }

  // ---- a write ----

  /** The record is in. */
  predicate Published(p: Producer) { p.PBump? || p.PLoadWaiting? || p.PWake? }

  /** In a write of `rec` that began with `accepted` and `drops`; or behind it. */
  ghost predicate InWrite(rec: Record, accepted: seq<Data>, drops: nat, s: State)
  {
    var taken := s.accepted == accepted + [Stored(rec.Bytes())] && s.counters.fullDrops == drops;
    if Published(s.producer) then taken
    else if s.producer.PIdle? then taken || (s.accepted == accepted && s.counters.fullDrops == drops + 1)
    else s.producer.rec == rec && s.accepted == accepted && s.counters.fullDrops == drops
  }

  /** The statements left in a write. */
  function WriteLeft(p: Producer): nat
  {
    match p
    case PIdle => 0
    case PWake => 1
    case PLoadWaiting => 2
    case PBump => 3
    case PPublish(_, _) => 4
    case PPayload(rec, _, k) => 5 + Max(|rec.payload| - k, 0)
    case PHeader(rec, _, k) => 6 + |rec.payload| + Max(|rec.hdr| - k, 0)
    case PLength(rec, _) => 7 + |rec.Bytes()|
    case PCheckFull(rec, _, _) => 8 + |rec.Bytes()|
    case PLoadRead(rec, _) => 9 + |rec.Bytes()|
    case PLoadWrite(rec) => 10 + |rec.Bytes()|
  }

  lemma WriterMoves(c: Config, s: State, rec: Record, accepted: seq<Data>, drops: nat)
    requires ValidConfig(c) && Inv(c, s) && InWrite(rec, accepted, drops, s) && !s.producer.PIdle?
    ensures InWrite(rec, accepted, drops, ProducerStep(c, s))
    ensures WriteLeft(ProducerStep(c, s).producer) < WriteLeft(s.producer)
  {
    hide Index, PowerOfTwo, QueueInv, HistoryInv, Partly, ConsumerInv, FutexInv;
    if s.producer.PLength? {
      IndexBound(s.producer.w, c.slotCount);
    }
  }

  /** The consumer takes no part in a write. */
  lemma ConsumerApart(c: Config, s: State)
    requires ValidConfig(c)
    ensures var t := ConsumerStep(c, s);
      t.producer == s.producer && t.accepted == s.accepted && t.counters.fullDrops == s.counters.fullDrops
  {
    hide Index, PowerOfTwo;
  }

  lemma WriteGoesOn(c: Config, s: State, a: Action, rec: Record, accepted: seq<Data>, drops: nat)
    requires ValidConfig(c) && Inv(c, s) && InWrite(rec, accepted, drops, s) && Next(c, s, a).Some? && !a.Write?
    ensures var t := Next(c, s, a).value;
      && InWrite(rec, accepted, drops, t)
      && WriteLeft(t.producer) + (if a == ProducerRuns then 1 else 0) <= WriteLeft(s.producer)
  {
    hide Index, PowerOfTwo, Inv;
    match a
    case Read(_, _) =>
    case ProducerRuns =>
      hide InWrite, WriteLeft, ProducerStep;
      WriterMoves(c, s, rec, accepted, drops);
    case ConsumerRuns => ConsumerApart(c, s);
    case Wakeup =>
  }

  lemma {:induction false} WriteRuns(c: Config, s: State, actions: seq<Action>, rec: Record, accepted: seq<Data>,
                                     drops: nat)
    requires ValidConfig(c) && Inv(c, s) && InWrite(rec, accepted, drops, s)
    requires NoWrites(actions) && Run(c, s, actions).Some?
    ensures var t := Run(c, s, actions).value;
      && Inv(c, t) && InWrite(rec, accepted, drops, t)
      && WriteLeft(t.producer) + Steps(actions, ProducerRuns) <= WriteLeft(s.producer)
  {
    hide InWrite, Next, PowerOfTwo, Inv, WriteLeft;
    if actions != [] {
      var front, last := actions[..|actions| - 1], actions[|actions| - 1];
      WriteRuns(c, s, front, rec, accepted, drops);
      WriteGoesOn(c, Run(c, s, front).value, last, rec, accepted, drops);
      StepRefines(c, Run(c, s, front).value, last);
    }
  }

  lemma WriteBegins(c: Config, s: State, rec: Record)
    requires ValidConfig(c) && Inv(c, s) && s.producer.PIdle? && Next(c, s, Write(rec)).Some?
    requires |rec.Bytes()| <= c.slotDataSize
    ensures var t := Next(c, s, Write(rec)).value;
      Inv(c, t) && InWrite(rec, s.accepted, s.counters.fullDrops, t) && WriteLeft(t.producer) == 10 + |rec.Bytes()|
  {
    StepRefines(c, s, Write(rec));
    hide Inv, PowerOfTwo;
  }

  /** Whatever the consumer does meanwhile, a write of a record that fits a slot is done after no more than its
      length and ten statements; and then just that record has been accepted, or none has and the counter of a full ring
      has grown by one. */
  lemma WriteComesBack(c: Config, s: State, rec: Record, actions: seq<Action>)
    requires ValidConfig(c) && Inv(c, s) && s.producer.PIdle? && Next(c, s, Write(rec)).Some?
    requires |rec.hdr| + |rec.payload| <= c.slotDataSize
    requires NoWrites(actions) && Run(c, Next(c, s, Write(rec)).value, actions).Some?
    ensures var t := Run(c, Next(c, s, Write(rec)).value, actions).value;
      && Steps(actions, ProducerRuns) <= 10 + |rec.hdr| + |rec.payload|
      && (Steps(actions, ProducerRuns) == 10 + |rec.hdr| + |rec.payload| ==> t.producer.PIdle?)
      && (t.producer.PIdle? ==>
            || (t.accepted == s.accepted + [Stored(rec.hdr + rec.payload)]
                && t.counters.fullDrops == s.counters.fullDrops)
            || (t.accepted == s.accepted && t.counters.fullDrops == s.counters.fullDrops + 1))
  {
    hide Run, Next, PowerOfTwo, Inv;
    WriteBegins(c, s, rec);
    WriteRuns(c, Next(c, s, Write(rec)).value, actions, rec, s.accepted, s.counters.fullDrops);
  }

  // ---- a read that does not wait ----

  /** The statements left in a plain read. */
  function ReadLeft(r: Consumer): nat
  {
    match r
    case CLoadRead(r) => 7 + r.size
    case CLoadWrite(r, _) => 6 + r.size
    case CCheckEmpty(r, _, _) => 5 + r.size
    case CLength(r, _) => 4 + r.size
    case CValidate(r, _, _) => 3 + r.size
    case CCopy(r, _, len, out) => 2 + Max(len - |out|, 0)
    case CRelease(_, _, _) => 1
    case CSkip(_, _) => 1
    case _ => 0
  }

  predicate PlainRead(s: State) { s.consumer.CIdle? || s.consumer.r.mode.Once? }

  /** `CSample` and the rest of the wait are not part of a plain read. */
  predicate Reads(r: Consumer) { !r.CSample? && !r.CSetWaiting? && !r.CWait? && !r.CAsleep? && !r.CClear? }

  lemma ReaderMoves(c: Config, s: State)
    requires ValidConfig(c) && Inv(c, s) && PlainRead(s) && Reads(s.consumer) && !s.consumer.CIdle?
    ensures var t := ConsumerStep(c, s);
      PlainRead(t) && Reads(t.consumer) && ReadLeft(t.consumer) < ReadLeft(s.consumer)
  {
    hide Index, PowerOfTwo, QueueInv, HistoryInv, ProducerInv, FutexInv;
    if s.consumer.CLength? {
      IndexBound(s.consumer.rd, c.slotCount);
    }
  }

  lemma ProducerLeaves(c: Config, s: State)
    requires ValidConfig(c) && Reads(s.consumer)
    ensures ProducerStep(c, s).consumer == s.consumer
  {
    hide Index, PowerOfTwo;
  }

  lemma {:induction false} ReadRuns(c: Config, s: State, actions: seq<Action>)
    requires ValidConfig(c) && Inv(c, s) && PlainRead(s) && Reads(s.consumer)
    requires (forall i :: 0 <= i < |actions| ==> !actions[i].Read?) && Run(c, s, actions).Some?
    ensures var t := Run(c, s, actions).value;
      && Inv(c, t) && PlainRead(t) && Reads(t.consumer)
      && ReadLeft(t.consumer) + Steps(actions, ConsumerRuns) <= ReadLeft(s.consumer)
  {
    hide PowerOfTwo, Inv, ReadLeft, ConsumerStep, ProducerStep;
    if actions != [] {
      var front, last := actions[..|actions| - 1], actions[|actions| - 1];
      ReadRuns(c, s, front);
      var t := Run(c, s, front).value;
      if last == ConsumerRuns {
        ReaderMoves(c, t);
      } else if last == ProducerRuns {
        ProducerLeaves(c, t);
      }
      StepRefines(c, t, last);
    }
  }

  /** Whatever the producer does meanwhile, a read that does not wait is done after no more statements than seven
      and the size of its buffer. */
  lemma ReadComesBack(c: Config, s: State, size: Uint16, actions: seq<Action>)
    requires ValidConfig(c) && Inv(c, s) && s.consumer.CIdle?
    requires forall i :: 0 <= i < |actions| ==> !actions[i].Read?
    requires Run(c, Next(c, s, Read(size, Once)).value, actions).Some?
    ensures Steps(actions, ConsumerRuns) <= 7 + size
    ensures Steps(actions, ConsumerRuns) == 7 + size ==>
      Run(c, Next(c, s, Read(size, Once)).value, actions).value.consumer.CIdle?
  {
    StepRefines(c, s, Read(size, Once));
    hide Run, PowerOfTwo, Inv;
    ReadRuns(c, Next(c, s, Read(size, Once)).value, actions);
  }
}
