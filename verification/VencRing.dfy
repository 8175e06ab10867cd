/** The single-producer single-consumer ring of include/venc_ring.h, one statement of either side per step,
    with the futex handshake of the blocking read. Indices and the futex word do not wrap. */
module VencRing {
  import opened Arith
  import opened Bytes

  // ---- slot indices ----

  function BitAnd(a: nat, b: nat): nat
  {
    if a == 0 || b == 0 then 0
    else (if a % 2 == 1 && b % 2 == 1 then 1 else 0) + 2 * BitAnd(a / 2, b / 2)
  }

  predicate PowerOfTwo(n: nat)
  {
    n == 1 || (n > 1 && n % 2 == 0 && PowerOfTwo(n / 2))
  }

  lemma HalfMod(w: nat, m: nat)
    requires m > 0
    ensures w % (2 * m) == w % 2 + 2 * (w / 2 % m)
  {
    var q, r := w / 2 / m, w / 2 % m;
    assert w / 2 == q * m + r;
    assert w == 2 * (w / 2) + w % 2;
    assert 2 * (q * m) == q * (2 * m);
    ModUnique(w, 2 * m, q, 2 * r + w % 2);
  }

  /** `w & (n - 1)` is `w` modulo `n`, because `n` is a power of two. */
  lemma {:induction false} MaskIsMod(w: nat, n: nat)
    requires PowerOfTwo(n)
    ensures BitAnd(w, n - 1) == w % n
  {
    if n == 1 {
    } else if w == 0 {
      ModUnique(w, n, 0, 0);
    } else {
      var m := n / 2;
      MaskIsMod(w / 2, m);
      HalfMod(w, m);
      assert n - 1 == 2 * (m - 1) + 1;
    }
  }

  function Index(w: nat, n: nat): nat
    requires n > 0
  {
    BitAnd(w, n - 1)
  }

  /** Two indices less than a lap apart name different slots. */
  lemma IndexDistinct(a: nat, b: nat, n: nat)
    requires PowerOfTwo(n) && a < b < a + n
    ensures Index(a, n) != Index(b, n)
  {
    MaskIsMod(a, n);
    MaskIsMod(b, n);
    ModDistinct(a, b, n);
  }

  lemma IndexBound(w: nat, n: nat)
    requires PowerOfTwo(n)
    ensures Index(w, n) < n
  {
    MaskIsMod(w, n);
  }

  // ---- the shared memory and the two sides ----

  datatype Config = Config(slotCount: nat, slotDataSize: nat)

  ghost predicate ValidConfig(c: Config) { PowerOfTwo(c.slotCount) }

  datatype Slot = Slot(length: Uint16, data: Data)

  /** The arguments of a write; both lengths are 16-bit. */
  datatype Record = Record(hdr: Data, payload: Data)
  {
    function Bytes(): Data { hdr + payload }
  }

  /** The bytes a record has once its length has gone through a 16-bit field. */
  function Stored(d: Data): Data { d[..|d| % 0x1_0000] }

  datatype Producer =
    | PIdle
    | PLoadWrite(rec: Record)
    | PLoadRead(rec: Record, w: nat)
    | PCheckFull(rec: Record, w: nat, rd: nat)
    | PLength(rec: Record, w: nat)
    | PHeader(rec: Record, w: nat, k: nat)
    | PPayload(rec: Record, w: nat, k: nat)
    | PPublish(rec: Record, w: nat)
    | PBump
    | PLoadWaiting
    | PWake

  /** A plain read, or the first or second read of one round of the blocking read. */
  datatype Mode = Once | First(timeout: bool) | Second(timeout: bool)

  datatype ReadCall = ReadCall(size: Uint16, mode: Mode)

  /** `seen` is the number of records published when the read that failed looked at the write index. */
  datatype Consumer =
    | CIdle
    | CLoadRead(r: ReadCall)
    | CLoadWrite(r: ReadCall, rd: nat)
    | CCheckEmpty(r: ReadCall, rd: nat, w: nat)
    | CLength(r: ReadCall, rd: nat)
    | CValidate(r: ReadCall, rd: nat, len: nat)
    | CCopy(r: ReadCall, rd: nat, len: nat, out: Data)
    | CRelease(r: ReadCall, rd: nat, out: Data)
    | CSkip(r: ReadCall, rd: nat)
    | CSample(r: ReadCall, seen: nat)
    | CSetWaiting(r: ReadCall, seen: nat, sample: nat)
    | CWait(r: ReadCall, seen: nat, sample: nat)
    | CAsleep(r: ReadCall, seen: nat, sample: nat)
    | CClear(r: ReadCall)

  datatype Counters = Counters(writeCount: nat, readCount: nat, fullDrops: nat, oversizeDrops: nat, badSlotDrops: nat)

  /** The ring, both sides, and what has been accepted and delivered so far. */
  datatype State = State(slots: seq<Slot>, writeIdx: nat, futexSeq: nat, readIdx: nat, waiting: bool,
                         producer: Producer, consumer: Consumer, counters: Counters,
                         accepted: seq<Data>, delivered: seq<Data>, sizes: seq<Uint16>)

  datatype Action =
    | Write(rec: Record)                    // the producer calls venc_ring_write
    | Read(size: Uint16, mode: Mode)        // the consumer calls venc_ring_read or venc_ring_read_wait
    | ProducerRuns                          // the next statement of a call in progress
    | ConsumerRuns
    | Wakeup                                // the wait ends on its own: timeout or signal

  function SetByte(s: State, i: nat, k: nat, b: Byte): State
  {
    if i < |s.slots| && k < |s.slots[i].data| then
      s.(slots := s.slots[i := s.slots[i].(data := s.slots[i].data[k := b])])
    else s
  }

  function ProducerStep(c: Config, s: State): State
    requires ValidConfig(c)
  {
    match s.producer
    case PIdle => s
    case PLoadWrite(rec) => s.(producer := PLoadRead(rec, s.writeIdx))
    case PLoadRead(rec, w) => s.(producer := PCheckFull(rec, w, s.readIdx))
    case PCheckFull(rec, w, rd) =>
      if w - rd >= c.slotCount then
        s.(producer := PIdle, counters := s.counters.(fullDrops := s.counters.fullDrops + 1))
      else s.(producer := PLength(rec, w))
    case PLength(rec, w) =>
      var i := Index(w, c.slotCount);
      if i < |s.slots| then
        s.(slots := s.slots[i := s.slots[i].(length := |rec.Bytes()| % 0x1_0000)], producer := PHeader(rec, w, 0))
      else s
    case PHeader(rec, w, k) =>
      if k < |rec.hdr| then SetByte(s, Index(w, c.slotCount), k, rec.hdr[k]).(producer := PHeader(rec, w, k + 1))
      else s.(producer := PPayload(rec, w, 0))
    case PPayload(rec, w, k) =>
      if k < |rec.payload| then
        SetByte(s, Index(w, c.slotCount), |rec.hdr| + k, rec.payload[k]).(producer := PPayload(rec, w, k + 1))
      else s.(producer := PPublish(rec, w))
    case PPublish(rec, w) =>
      s.(writeIdx := w + 1, producer := PBump, accepted := s.accepted + [Stored(rec.Bytes())],
         counters := s.counters.(writeCount := s.counters.writeCount + 1))
    case PBump => s.(futexSeq := s.futexSeq + 1, producer := PLoadWaiting)
    case PLoadWaiting => s.(producer := if s.waiting then PWake else PIdle)
    case PWake =>
      s.(producer := PIdle, consumer := if s.consumer.CAsleep? then CClear(s.consumer.r) else s.consumer)
  }

  /** Where the consumer goes when a read returns -1. */
  function ReadFailed(r: ReadCall, seen: nat): Consumer
  {
    match r.mode
    case Once => CIdle
    case First(timeout) => CSample(r, seen)
    case Second(timeout) => if timeout then CIdle else CLoadRead(r.(mode := First(timeout)))
  }

  /** The consumer's next statement; a sleeping consumer has none. */
  function ConsumerStep(c: Config, s: State): State
    requires ValidConfig(c)
  {
    match s.consumer
    case CIdle => s
    case CLoadRead(r) => s.(consumer := CLoadWrite(r, s.readIdx))
    case CLoadWrite(r, rd) => s.(consumer := CCheckEmpty(r, rd, s.writeIdx))
    case CCheckEmpty(r, rd, w) => s.(consumer := if rd >= w then ReadFailed(r, w) else CLength(r, rd))
    case CLength(r, rd) =>
      var i := Index(rd, c.slotCount);
      if i < |s.slots| then s.(consumer := CValidate(r, rd, s.slots[i].length)) else s
    case CValidate(r, rd, len) =>
      if len > c.slotDataSize then s.(consumer := CSkip(r, rd))
      else s.(consumer := CCopy(r, rd, if len > r.size then r.size else len, []))
    case CCopy(r, rd, len, out) =>
      var i := Index(rd, c.slotCount);
      if |out| < len && i < |s.slots| && |out| < |s.slots[i].data| then
        s.(consumer := CCopy(r, rd, len, out + [s.slots[i].data[|out|]]))
      else s.(consumer := CRelease(r, rd, out))
    case CRelease(r, rd, out) =>
      s.(readIdx := rd + 1, consumer := CIdle, delivered := s.delivered + [out], sizes := s.sizes + [r.size],
         counters := s.counters.(readCount := s.counters.readCount + 1))
    case CSkip(r, rd) =>
      s.(readIdx := rd + 1, consumer := ReadFailed(r, rd + 1),
         counters := s.counters.(badSlotDrops := s.counters.badSlotDrops + 1))
    case CSample(r, seen) => s.(consumer := CSetWaiting(r, seen, s.futexSeq))
    case CSetWaiting(r, seen, sample) => s.(waiting := true, consumer := CWait(r, seen, sample))
    case CWait(r, seen, sample) =>
      s.(consumer := if s.futexSeq == sample then CAsleep(r, seen, sample) else CClear(r))
    case CAsleep(r, seen, sample) => s
    case CClear(r) =>
      s.(waiting := false, consumer := CLoadRead(r.(mode := match r.mode case First(t) => Second(t) case m => m)))
  }

  /** The state after action `a`, if it is possible. */
  function Next(c: Config, s: State, a: Action): Option<State>
    requires ValidConfig(c)
  {
    match a
    case Write(rec) =>
      if !s.producer.PIdle? || |rec.hdr| > 0xFFFF || |rec.payload| > 0xFFFF then None
      else if |rec.hdr| + |rec.payload| > c.slotDataSize then
        Some(s.(counters := s.counters.(oversizeDrops := s.counters.oversizeDrops + 1)))
      else Some(s.(producer := PLoadWrite(rec)))
    case Read(size, mode) =>
      if !s.consumer.CIdle? || mode.Second? then None else Some(s.(consumer := CLoadRead(ReadCall(size, mode))))
    case ProducerRuns => if s.producer.PIdle? then None else Some(ProducerStep(c, s))
    case ConsumerRuns => if s.consumer.CIdle? || s.consumer.CAsleep? then None else Some(ConsumerStep(c, s))
    case Wakeup => if s.consumer.CAsleep? then Some(s.(consumer := CClear(s.consumer.r))) else None
  }

  ghost predicate Init(c: Config, s: State)
  {
    && |s.slots| == c.slotCount
    && (forall i :: 0 <= i < |s.slots| ==> |s.slots[i].data| == c.slotDataSize)
    && s.writeIdx == 0 && s.futexSeq == 0 && s.readIdx == 0 && !s.waiting
    && s.producer == PIdle && s.consumer == CIdle && s.counters == Counters(0, 0, 0, 0, 0)
    && s.accepted == [] && s.delivered == [] && s.sizes == []
  }

  function Run(c: Config, s: State, actions: seq<Action>): Option<State>
    requires ValidConfig(c)
  {
    if actions == [] then Some(s)
    else
      match Run(c, s, actions[..|actions| - 1])
      case None => None
      case Some(t) => Next(c, t, actions[|actions| - 1])
  }

  // ---- the invariant ----

  ghost predicate SlotHolds(slot: Slot, d: Data)
  {
    slot.length == |d| && |d| <= |slot.data| && slot.data[..|d|] == d
  }

  function Truncated(d: Data, size: nat): Data { if |d| > size then d[..size] else d }

  ghost predicate ShapeInv(c: Config, s: State)
  {
    && |s.slots| == c.slotCount
    && (forall i :: 0 <= i < |s.slots| ==> |s.slots[i].data| == c.slotDataSize)
    && s.readIdx <= s.writeIdx <= s.readIdx + c.slotCount
    && |s.accepted| == s.writeIdx && |s.delivered| == s.readIdx
    && s.counters.writeCount == s.writeIdx && s.counters.readCount == s.readIdx && s.counters.badSlotDrops == 0
  }

  /** Every record between the indices is in its slot. */
  ghost predicate QueueInv(c: Config, slots: seq<Slot>, readIdx: nat, accepted: seq<Data>)
    requires ValidConfig(c)
  {
    forall i :: readIdx <= i < |accepted| ==>
      Index(i, c.slotCount) < |slots| && SlotHolds(slots[Index(i, c.slotCount)], accepted[i])
  }

  /** What has been delivered is what was accepted, each record cut to the size of the reader's buffer. */
  ghost predicate HistoryInv(delivered: seq<Data>, accepted: seq<Data>, sizes: seq<Uint16>)
  {
    && |delivered| == |sizes| <= |accepted|
    && forall i :: 0 <= i < |delivered| ==> delivered[i] == Truncated(accepted[i], sizes[i])
  }

  /** A record that may be written to the slot at the write index. */
  ghost predicate Writing(c: Config, s: State, rec: Record, w: nat)
  {
    w == s.writeIdx && s.writeIdx < s.readIdx + c.slotCount && |rec.Bytes()| <= c.slotDataSize
  }

  ghost predicate ProducerInv(c: Config, s: State)
    requires ValidConfig(c)
  {
    match s.producer
    case PLoadWrite(rec) => |rec.Bytes()| <= c.slotDataSize
    case PLoadRead(rec, w) => w == s.writeIdx && |rec.Bytes()| <= c.slotDataSize
    case PCheckFull(rec, w, rd) => w == s.writeIdx && rd <= s.readIdx && |rec.Bytes()| <= c.slotDataSize
    case PLength(rec, w) => Writing(c, s, rec, w)
    case PHeader(rec, w, k) => Writing(c, s, rec, w) && k <= |rec.hdr| && Partly(c, s, rec, w, k)
    case PPayload(rec, w, k) => Writing(c, s, rec, w) && k <= |rec.payload| && Partly(c, s, rec, w, |rec.hdr| + k)
    case PPublish(rec, w) => Writing(c, s, rec, w) && Partly(c, s, rec, w, |rec.Bytes()|)
    case _ => true
  }

  /** The length and the first `n` bytes of the record are in the slot. */
  ghost predicate Partly(c: Config, s: State, rec: Record, w: nat, n: nat)
    requires ValidConfig(c)
  {
    var i := Index(w, c.slotCount);
    && i < |s.slots| && n <= |rec.Bytes()| && n <= |s.slots[i].data|
    && s.slots[i].length == |rec.Bytes()| % 0x1_0000
    && s.slots[i].data[..n] == rec.Bytes()[..n]
  }

  /** The record at the read index, while the consumer is at it. */
  ghost predicate Reading(s: State, rd: nat)
  {
    rd == s.readIdx && rd < s.writeIdx && rd < |s.accepted|
  }

  ghost predicate ConsumerInv(c: Config, s: State)
  {
    match s.consumer
    case CLoadWrite(r, rd) => rd == s.readIdx
    case CCheckEmpty(r, rd, w) => rd == s.readIdx && rd <= w <= s.writeIdx
    case CLength(r, rd) => Reading(s, rd)
    case CValidate(r, rd, len) => Reading(s, rd) && len == |s.accepted[rd]|
    case CCopy(r, rd, len, out) =>
      && Reading(s, rd) && len == |Truncated(s.accepted[rd], r.size)| && |out| <= len
      && out == s.accepted[rd][..|out|]
    case CRelease(r, rd, out) => Reading(s, rd) && out == Truncated(s.accepted[rd], r.size)
    case CSkip(r, rd) => false
    case CSample(r, seen) => seen == s.readIdx
    case CSetWaiting(r, seen, sample) => seen == s.readIdx && sample <= s.futexSeq
    case CWait(r, seen, sample) => seen == s.readIdx && sample <= s.futexSeq
    case CAsleep(r, seen, sample) =>
      seen == s.readIdx && sample <= s.futexSeq
      && (sample < s.futexSeq ==> s.producer.PLoadWaiting? || s.producer.PWake?)
    case _ => true
  }

  ghost predicate FutexInv(s: State)
  {
    && s.writeIdx == s.futexSeq + (if s.producer.PBump? then 1 else 0)
    && (s.waiting <==> s.consumer.CWait? || s.consumer.CAsleep? || s.consumer.CClear?)
  }

  ghost predicate Inv(c: Config, s: State)
    requires ValidConfig(c)
  {
    && ShapeInv(c, s)
    && QueueInv(c, s.slots, s.readIdx, s.accepted)
    && HistoryInv(s.delivered, s.accepted, s.sizes)
    && ProducerInv(c, s) && ConsumerInv(c, s) && FutexInv(s)
  }

  lemma InitInv(c: Config, s: State)
    requires ValidConfig(c) && Init(c, s)
    ensures Inv(c, s)
  {
  }

  // ---- every step keeps the invariant and is a step of a bounded queue ----

  /** The records in the ring, oldest first. */
  ghost function Queue(s: State): seq<Data>
  {
    if s.readIdx <= s.writeIdx <= |s.accepted| then s.accepted[s.readIdx..s.writeIdx] else []
  }

  /** A bounded queue either stands still, takes one record in at the back, or gives one out at the front,
      cut to the size of the reader's buffer. */
  ghost predicate FifoStep(c: Config, s: State, t: State)
  {
    || (Queue(t) == Queue(s) && t.accepted == s.accepted && t.delivered == s.delivered)
    || (exists d :: t.accepted == s.accepted + [d] && Queue(t) == Queue(s) + [d] && t.delivered == s.delivered
          && |Queue(t)| <= c.slotCount)
    || (exists size: Uint16 :: Queue(s) != [] && Queue(t) == Queue(s)[1..] && t.accepted == s.accepted
          && t.delivered == s.delivered + [Truncated(Queue(s)[0], size)])
  }

  /** Only the slot at the write index changes, so the queued records stay put. */
  lemma QueueKept(c: Config, slots: seq<Slot>, readIdx: nat, accepted: seq<Data>, slot: Slot)
    requires ValidConfig(c) && QueueInv(c, slots, readIdx, accepted)
    requires |accepted| < readIdx + c.slotCount && Index(|accepted|, c.slotCount) < |slots|
    ensures QueueInv(c, slots[Index(|accepted|, c.slotCount) := slot], readIdx, accepted)
  {
    hide SlotHolds, Index, PowerOfTwo;
    forall i | readIdx <= i < |accepted|
      ensures Index(i, c.slotCount) != Index(|accepted|, c.slotCount)
    {
      IndexDistinct(i, |accepted|, c.slotCount);
    }
  }

  /** A record that is complete in its slot joins the queue. */
  lemma QueueExtended(c: Config, slots: seq<Slot>, readIdx: nat, accepted: seq<Data>, d: Data)
    requires ValidConfig(c) && QueueInv(c, slots, readIdx, accepted)
    requires Index(|accepted|, c.slotCount) < |slots| && SlotHolds(slots[Index(|accepted|, c.slotCount)], d)
    ensures QueueInv(c, slots, readIdx, accepted + [d])
  {
    hide SlotHolds, Index, PowerOfTwo;
  }

  lemma StandsStill(c: Config, s: State, t: State)
    requires t.accepted == s.accepted && t.delivered == s.delivered
    requires t.readIdx == s.readIdx && t.writeIdx == s.writeIdx
    ensures FifoStep(c, s, t)
  {
  }

  /** The steps of the producer that fill the slot at the write index. */
  predicate Filling(p: Producer) { p.PLength? || p.PHeader? || p.PPayload? }

  /** The steps of the producer that touch no slot and publish nothing. */
  predicate Looks(p: Producer) { !Filling(p) && !p.PPublish? }

  lemma LooksShape(c: Config, s: State)
    requires ValidConfig(c) && ShapeInv(c, s) && Looks(s.producer)
    ensures var t := ProducerStep(c, s);
      && t.slots == s.slots && t.writeIdx == s.writeIdx && t.readIdx == s.readIdx && t.accepted == s.accepted
      && t.delivered == s.delivered && t.sizes == s.sizes && ShapeInv(c, t)
  {
  }

  lemma LooksProducer(c: Config, s: State)
    requires ValidConfig(c) && ShapeInv(c, s) && ProducerInv(c, s) && Looks(s.producer)
    ensures ProducerInv(c, ProducerStep(c, s))
  {
    hide Partly;
  }

  lemma LooksConsumer(c: Config, s: State)
    requires ValidConfig(c) && ConsumerInv(c, s) && FutexInv(s) && Looks(s.producer)
    ensures ConsumerInv(c, ProducerStep(c, s)) && FutexInv(ProducerStep(c, s))
  {
  }

  lemma ProducerLooks(c: Config, s: State)
    requires ValidConfig(c) && Inv(c, s) && Looks(s.producer)
    ensures Inv(c, ProducerStep(c, s)) && FifoStep(c, s, ProducerStep(c, s))
  {
    hide ProducerStep, ShapeInv, QueueInv, HistoryInv, ProducerInv, ConsumerInv, FutexInv, PowerOfTwo, FifoStep;
    LooksShape(c, s);
    LooksProducer(c, s);
    LooksConsumer(c, s);
    StandsStill(c, s, ProducerStep(c, s));
  }

  /** One more byte of the record in its slot. */
  lemma PartlyMore(c: Config, s: State, rec: Record, w: nat, n: nat)
    requires ValidConfig(c) && Partly(c, s, rec, w, n) && n < |rec.Bytes()|
    requires Index(w, c.slotCount) < |s.slots| && |s.slots[Index(w, c.slotCount)].data| >= |rec.Bytes()|
    ensures Partly(c, SetByte(s, Index(w, c.slotCount), n, rec.Bytes()[n]), rec, w, n + 1)
  {
    hide Index;
    var i := Index(w, c.slotCount);
    var data, bytes := s.slots[i].data, rec.Bytes();
    assert data[n := bytes[n]][..n + 1] == data[..n] + [bytes[n]];
    assert bytes[..n + 1] == bytes[..n] + [bytes[n]];
  }

  lemma PartlySame(c: Config, s: State, t: State, rec: Record, w: nat, n: nat)
    requires ValidConfig(c) && Partly(c, s, rec, w, n) && t.slots == s.slots
    ensures Partly(c, t, rec, w, n)
  {
  }

  lemma FillKeepsProducer(c: Config, s: State)
    requires ValidConfig(c) && ShapeInv(c, s) && ProducerInv(c, s)
    requires Filling(s.producer)
    ensures ProducerInv(c, ProducerStep(c, s))
  {
    hide Partly, PowerOfTwo, Index;
    var t := ProducerStep(c, s);
    IndexBound(s.producer.w, c.slotCount);
    match s.producer
    case PLength(rec, w) => FirstByte(c, s, rec, w);
    case PHeader(rec, w, k) =>
      if k < |rec.hdr| {
        PartlyMore(c, s, rec, w, k);
        PartlySame(c, SetByte(s, Index(w, c.slotCount), k, rec.hdr[k]), t, rec, w, k + 1);
      } else {
        PartlySame(c, s, t, rec, w, |rec.hdr|);
      }
    case PPayload(rec, w, k) =>
      if k < |rec.payload| {
        PartlyMore(c, s, rec, w, |rec.hdr| + k);
        PartlySame(c, SetByte(s, Index(w, c.slotCount), |rec.hdr| + k, rec.payload[k]), t, rec, w, |rec.hdr| + k + 1);
      } else {
        PartlySame(c, s, t, rec, w, |rec.Bytes()|);
      }
  }

  lemma FirstByte(c: Config, s: State, rec: Record, w: nat)
    requires ValidConfig(c) && s.producer == PLength(rec, w) && Index(w, c.slotCount) < |s.slots|
    ensures Partly(c, ProducerStep(c, s), rec, w, 0)
  {
    hide Index, PowerOfTwo;
  }

  /** Filling changes nothing but that slot and the producer's place in the call. */
  lemma FillsSlot(c: Config, s: State)
    requires ValidConfig(c) && Filling(s.producer)
    ensures var t, i := ProducerStep(c, s), Index(s.producer.w, c.slotCount);
      && t == s.(slots := t.slots, producer := t.producer) && !t.producer.PBump? && |t.slots| == |s.slots|
      && (t.slots == s.slots || (i < |s.slots| && t.slots == s.slots[i := t.slots[i]]))
      && forall k :: 0 <= k < |s.slots| ==> |t.slots[k].data| == |s.slots[k].data|
  {
    hide Index, PowerOfTwo;
  }

  /** The other parts of the invariant do not look at a slot's contents. */
  lemma FillsRest(c: Config, s: State, t: State)
    requires ShapeInv(c, s) && ConsumerInv(c, s) && FutexInv(s) && Filling(s.producer)
    requires t == s.(slots := t.slots, producer := t.producer) && !t.producer.PBump? && |t.slots| == |s.slots|
    requires forall k :: 0 <= k < |s.slots| ==> |t.slots[k].data| == |s.slots[k].data|
    ensures ShapeInv(c, t) && ConsumerInv(c, t) && FutexInv(t)
  {
  }

  lemma ProducerFills(c: Config, s: State)
    requires ValidConfig(c) && Inv(c, s) && Filling(s.producer)
    ensures Inv(c, ProducerStep(c, s)) && FifoStep(c, s, ProducerStep(c, s))
  {
    hide ProducerStep, QueueInv, HistoryInv, ConsumerInv, FutexInv, PowerOfTwo, Index, Partly, FifoStep;
    var w := s.producer.w;
    var t := ProducerStep(c, s);
    IndexBound(w, c.slotCount);
    FillKeepsProducer(c, s);
    FillsSlot(c, s);
    FillsRest(c, s, t);
    StandsStill(c, s, t);
    if t.slots != s.slots {
      QueueKept(c, s.slots, s.readIdx, s.accepted, t.slots[Index(w, c.slotCount)]);
    }
  }

  lemma ProducerPublishes(c: Config, s: State)
    requires ValidConfig(c) && Inv(c, s) && s.producer.PPublish?
    ensures Inv(c, ProducerStep(c, s)) && FifoStep(c, s, ProducerStep(c, s))
  {
    hide QueueInv, PowerOfTwo, Index;
    var d := Stored(s.producer.rec.Bytes());
    QueueExtended(c, s.slots, s.readIdx, s.accepted, d);
  }

  /** The producer's obligations only get easier when the consumer moves on. */
  lemma ProducerKept(c: Config, s: State, t: State)
    requires ValidConfig(c) && ProducerInv(c, s)
    requires t.producer == s.producer && t.slots == s.slots && t.writeIdx == s.writeIdx && t.readIdx >= s.readIdx
    ensures ProducerInv(c, t)
  {
    hide Index, PowerOfTwo;
  }

  /** The steps of the consumer that read no slot and release nothing. */
  lemma ConsumerLooks(c: Config, s: State)
    requires ValidConfig(c) && Inv(c, s)
    requires !s.consumer.CLength? && !s.consumer.CValidate? && !s.consumer.CCopy? && !s.consumer.CRelease?
    ensures Inv(c, ConsumerStep(c, s)) && FifoStep(c, s, ConsumerStep(c, s))
  {
    hide QueueInv, HistoryInv, PowerOfTwo, Index, FifoStep, ProducerInv;
    ProducerKept(c, s, ConsumerStep(c, s));
    StandsStill(c, s, ConsumerStep(c, s));
  }

  /** The steps of the consumer that read the slot at the read index. */
  lemma ConsumerReads(c: Config, s: State)
    requires ValidConfig(c) && Inv(c, s)
    requires s.consumer.CLength? || s.consumer.CValidate? || s.consumer.CCopy?
    ensures Inv(c, ConsumerStep(c, s)) && FifoStep(c, s, ConsumerStep(c, s))
  {
    var rd := s.consumer.rd;
    assert Index(rd, c.slotCount) < |s.slots| && SlotHolds(s.slots[Index(rd, c.slotCount)], s.accepted[rd]);
    hide QueueInv, HistoryInv, PowerOfTwo, Index, FifoStep, ProducerInv;
    ProducerKept(c, s, ConsumerStep(c, s));
    StandsStill(c, s, ConsumerStep(c, s));
  }

  lemma ConsumerReleases(c: Config, s: State)
    requires ValidConfig(c) && Inv(c, s) && s.consumer.CRelease?
    ensures Inv(c, ConsumerStep(c, s)) && FifoStep(c, s, ConsumerStep(c, s))
  {
    hide PowerOfTwo, Index, ProducerInv, SlotHolds;
    var t := ConsumerStep(c, s);
    ProducerKept(c, s, t);
    var d := s.accepted[s.readIdx];
    assert Queue(s) == [d] + Queue(t);
    assert t.delivered == s.delivered + [Truncated(Queue(s)[0], s.consumer.r.size)];
  }

  /** Every action of either side keeps the invariant and is a step of the bounded queue. */
  lemma StepRefines(c: Config, s: State, a: Action)
    requires ValidConfig(c) && Inv(c, s) && Next(c, s, a).Some?
    ensures Inv(c, Next(c, s, a).value) && FifoStep(c, s, Next(c, s, a).value)
  {
    hide QueueInv, HistoryInv, PowerOfTwo, Index, FifoStep;
    match a
    case ProducerRuns =>
      hide Inv, ProducerStep;
      if Filling(s.producer) {
        ProducerFills(c, s);
      } else if s.producer.PPublish? {
        ProducerPublishes(c, s);
      } else {
        ProducerLooks(c, s);
      }
    case ConsumerRuns =>
      hide Inv, ConsumerStep;
      if s.consumer.CLength? || s.consumer.CValidate? || s.consumer.CCopy? {
        ConsumerReads(c, s);
      } else if s.consumer.CRelease? {
        ConsumerReleases(c, s);
      } else {
        ConsumerLooks(c, s);
      }
    case _ =>
      StandsStill(c, s, Next(c, s, a).value);
  }

  /** In every reachable state, whatever the interleaving: the invariant holds. */
  lemma {:induction false} RunInv(c: Config, s: State, actions: seq<Action>)
    requires ValidConfig(c) && Init(c, s) && Run(c, s, actions).Some?
    ensures Inv(c, Run(c, s, actions).value)
  {
    hide Inv, Init, Next, PowerOfTwo;
    if actions == [] {
      InitInv(c, s);
    } else {
      RunInv(c, s, actions[..|actions| - 1]);
      StepRefines(c, Run(c, s, actions[..|actions| - 1]).value, actions[|actions| - 1]);
    }
  }

  /** First in, first out: at any time the records delivered are the first ones accepted, in order, each cut
      only to the size of the buffer it was read into; no slot was ever found corrupt; and the ring holds
      the rest, at most `slotCount` of them. */
  lemma DeliveredInOrder(c: Config, s: State, actions: seq<Action>)
    requires ValidConfig(c) && Init(c, s) && Run(c, s, actions).Some?
    ensures var t := Run(c, s, actions).value;
      && |t.delivered| == |t.sizes| <= |t.accepted|
      && (forall i :: 0 <= i < |t.delivered| ==> t.delivered[i] == Truncated(t.accepted[i], t.sizes[i]))
      && Queue(t) == t.accepted[|t.delivered|..] && |Queue(t)| <= c.slotCount
      && t.counters.badSlotDrops == 0
  {
    hide ProducerInv, ConsumerInv, FutexInv, QueueInv, PowerOfTwo, Run, Init;
    RunInv(c, s, actions);
  }

  /** The slot the producer is filling, and the slot the consumer is reading. */
  ghost predicate Fills(c: Config, p: Producer, i: nat)
    requires ValidConfig(c)
  {
    (Filling(p) || p.PPublish?) && i == Index(p.w, c.slotCount)
  }

  ghost predicate LooksAt(c: Config, r: Consumer, i: nat)
    requires ValidConfig(c)
  {
    (r.CLength? || r.CValidate? || r.CCopy? || r.CRelease?) && i == Index(r.rd, c.slotCount)
  }

  /** No slot is ever written while it is being read. */
  lemma NeverBoth(c: Config, s: State, actions: seq<Action>, i: nat)
    requires ValidConfig(c) && Init(c, s) && Run(c, s, actions).Some?
    ensures var t := Run(c, s, actions).value; !(Fills(c, t.producer, i) && LooksAt(c, t.consumer, i))
  {
    hide PowerOfTwo, Index, Run, Init, QueueInv, HistoryInv, Partly;
    RunInv(c, s, actions);
    var t := Run(c, s, actions).value;
    if Fills(c, t.producer, i) && LooksAt(c, t.consumer, i) {
      IndexDistinct(t.readIdx, t.writeIdx, c.slotCount);
    }
  }

  /** What is outside the producer's own counters and program counter. */
  ghost predicate SharedUnchanged(s: State, t: State)
  {
    && t.slots == s.slots && t.writeIdx == s.writeIdx && t.readIdx == s.readIdx && t.futexSeq == s.futexSeq
    && t.waiting == s.waiting && t.consumer == s.consumer && t.accepted == s.accepted && t.delivered == s.delivered
  }

  /** An oversize record is counted and changes nothing else. */
  lemma OversizeDropped(c: Config, s: State, rec: Record)
    requires ValidConfig(c) && Next(c, s, Write(rec)).Some?
    ensures var t := Next(c, s, Write(rec)).value;
      && SharedUnchanged(s, t)
      && (t.producer.PIdle? <==> |rec.Bytes()| > c.slotDataSize)
      && (t.counters != s.counters <==> |rec.Bytes()| > c.slotDataSize)
  {
  }

  /** A record is dropped for want of room just when the ring was full as the producer looked at the read
      index, however long ago that was; then the full counter grows and nothing else changes. */
  lemma FullDropped(c: Config, s: State, t: State)
    requires ValidConfig(c) && Inv(c, s) && s.producer.PLoadRead?
    requires t.producer == ProducerStep(c, s).producer && Inv(c, t)
    ensures var u := ProducerStep(c, t);
      && SharedUnchanged(t, u)
      && (u.producer.PIdle? <==> |Queue(s)| == c.slotCount)
      && u.counters == t.counters.(fullDrops := t.counters.fullDrops + if |Queue(s)| == c.slotCount then 1 else 0)
  {
    hide PowerOfTwo, QueueInv, HistoryInv, ConsumerInv, FutexInv;
  }

  /** A record keeps all its bytes just when every record that fits a slot has a 16-bit length. */
  lemma StoredWhole(c: Config)
    ensures (forall d: Data :: |d| <= c.slotDataSize ==> Stored(d) == d) <==> c.slotDataSize <= 0xFFFF
  {
    if c.slotDataSize > 0xFFFF {
      var d: Data := seq(0x1_0000, _ => 0);
      assert |Stored(d)| == 0 && |d| <= c.slotDataSize;
    }
  }

  // ---- the futex handshake ----

  /** A publish whose increment of the futex word follows the consumer's sample never leaves it asleep:
      while the consumer sleeps, the producer is on its way to wake it, and does so within two steps. */
  lemma PublishWakes(c: Config, s: State, actions: seq<Action>)
    requires ValidConfig(c) && Init(c, s) && Run(c, s, actions).Some?
    ensures var t := Run(c, s, actions).value;
      t.consumer.CAsleep? && t.futexSeq > t.consumer.sample ==>
        && (t.producer.PWake? || (t.producer.PLoadWaiting? && ProducerStep(c, t).producer.PWake?))
        && (var u := ProducerStep(c, t); !u.consumer.CAsleep? || !ProducerStep(c, u).consumer.CAsleep?)
  {
    hide PowerOfTwo, Run, Init, QueueInv, HistoryInv, ProducerInv, ShapeInv;
    RunInv(c, s, actions);
  }

  /** A consumer asleep with the producer idle faces records it will not be told about just when it sampled
      the futex word after a publish that its failed read had not seen. */
  lemma AsleepExactly(c: Config, s: State, actions: seq<Action>)
    requires ValidConfig(c) && Init(c, s) && Run(c, s, actions).Some?
    ensures var t := Run(c, s, actions).value;
      t.consumer.CAsleep? && t.producer.PIdle? ==>
        && t.futexSeq == t.consumer.sample == t.writeIdx
        && (Queue(t) != [] <==> t.consumer.sample != t.consumer.seen)
        && |Queue(t)| == t.consumer.sample - t.consumer.seen
  {
    hide PowerOfTwo, Run, Init, QueueInv, HistoryInv, ProducerInv;
    RunInv(c, s, actions);
  }

  ghost predicate Reaches(c: Config, s: State, t: State)
    requires ValidConfig(c)
  {
    exists actions :: Run(c, s, actions) == Some(t)
  }

  lemma ReachesNext(c: Config, s: State, t: State, a: Action) returns (u: State)
    requires ValidConfig(c) && Reaches(c, s, t) && Next(c, t, a).Some?
    ensures Next(c, t, a) == Some(u) && Reaches(c, s, u)
  {
    hide Next, PowerOfTwo;
    u := Next(c, t, a).value;
    var actions :| Run(c, s, actions) == Some(t);
    assert (actions + [a])[..|actions|] == actions;
    assert Run(c, s, actions + [a]) == Some(u);
  }

  const TINY := Config(1, 1)
  const BLOCKING := ReadCall(1, First(false))
  const ONE_BYTE := Record([7], [])
  const EMPTY_RING := State([Slot(0, [0])], 0, 0, 0, false, PIdle, CIdle, Counters(0, 0, 0, 0, 0), [], [], [])

  /** The blocking read finds the ring empty ... */
  lemma EmptyRead() returns (t: State)
    ensures Reaches(TINY, EMPTY_RING, t) && t == EMPTY_RING.(consumer := CSample(BLOCKING, 0))
  {
    assert Run(TINY, EMPTY_RING, []) == Some(EMPTY_RING);
    hide Run, Reaches;
    t := ReachesNext(TINY, EMPTY_RING, EMPTY_RING, Read(1, First(false)));
    t := ReachesNext(TINY, EMPTY_RING, t, ConsumerRuns);
    t := ReachesNext(TINY, EMPTY_RING, t, ConsumerRuns);
    t := ReachesNext(TINY, EMPTY_RING, t, ConsumerRuns);
  }

  /** ... a record is put into its slot ... */
  lemma ThenFilled() returns (t: State)
    ensures Reaches(TINY, EMPTY_RING, t)
    ensures t == EMPTY_RING.(slots := t.slots, consumer := CSample(BLOCKING, 0), producer := PPublish(ONE_BYTE, 0))
  {
    t := ThenStarted();
    assert Index(0, 1) == 0;
    hide Run, Reaches, Index;
    t := ReachesNext(TINY, EMPTY_RING, t, ProducerRuns);
    assert t.producer == PHeader(ONE_BYTE, 0, 0);
    t := ReachesNext(TINY, EMPTY_RING, t, ProducerRuns);
    assert t.producer == PHeader(ONE_BYTE, 0, 1);
    t := ReachesNext(TINY, EMPTY_RING, t, ProducerRuns);
    t := ReachesNext(TINY, EMPTY_RING, t, ProducerRuns);
  }

  lemma ThenStarted() returns (t: State)
    ensures Reaches(TINY, EMPTY_RING, t)
    ensures t == EMPTY_RING.(consumer := CSample(BLOCKING, 0), producer := PLength(ONE_BYTE, 0))
  {
    t := EmptyRead();
    hide Run, Reaches, Index;
    t := ReachesNext(TINY, EMPTY_RING, t, Write(ONE_BYTE));
    t := ReachesNext(TINY, EMPTY_RING, t, ProducerRuns);
    t := ReachesNext(TINY, EMPTY_RING, t, ProducerRuns);
    t := ReachesNext(TINY, EMPTY_RING, t, ProducerRuns);
  }

  /** ... and published, with nobody waiting; only then does the reader sample the futex word, raise its
      flag and sleep, with a record in the ring and the producer done with it. */
  lemma LostWakeup() returns (t: State)
    ensures ValidConfig(TINY) && Init(TINY, EMPTY_RING) && Reaches(TINY, EMPTY_RING, t)
    ensures t.consumer.CAsleep? && t.producer.PIdle? && Queue(t) != []
  {
    t := ThenFilled();
    hide Run, Reaches, Index;
    t := ReachesNext(TINY, EMPTY_RING, t, ProducerRuns);
    t := ReachesNext(TINY, EMPTY_RING, t, ProducerRuns);
    t := ReachesNext(TINY, EMPTY_RING, t, ProducerRuns);
    assert t.producer == PIdle && t.futexSeq == 1 && |t.accepted| == 1;
    t := ReachesNext(TINY, EMPTY_RING, t, ConsumerRuns);
    t := ReachesNext(TINY, EMPTY_RING, t, ConsumerRuns);
    t := ReachesNext(TINY, EMPTY_RING, t, ConsumerRuns);
  }
}
