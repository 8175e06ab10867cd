/** What the calls that read the ring of include/venc_ring.h come back with. */
module VencRead {
  import opened Bytes
  import opened VencRing

  /** The consumer makes no other call. */
  ghost predicate NoReads(actions: seq<Action>) { forall i :: 0 <= i < |actions| ==> !actions[i].Read? }

  /** How often the consumer raises its flag to wait. */
  function Waits(c: Config, s: State, actions: seq<Action>): nat
    requires ValidConfig(c)
  {
    if actions == [] then 0
    else
      var front := actions[..|actions| - 1];
      Waits(c, s, front)
        + match Run(c, s, front)
          case Some(t) => if actions[|actions| - 1].ConsumerRuns? && t.consumer.CSetWaiting? then 1 else 0
          case None => 0
  }

  predicate Waiting(r: Consumer) { r.CSample? || r.CSetWaiting? || r.CWait? || r.CAsleep? || r.CClear? }

  /** In a call that began with `before` records delivered, after `waits` waits; or behind it. */
  ghost predicate InCall(size: Uint16, mode: Mode, before: nat, waits: nat, s: State)
  {
    if s.consumer.CIdle? then
      && (mode.Once? ==> waits == 0)
      && (mode.First? && mode.timeout ==> waits <= 1)
      && (|s.delivered| == before + 1
          || (|s.delivered| == before && (mode.Once? || (mode.First? && mode.timeout && waits == 1))))
    else
      var r := s.consumer.r;
      && |s.delivered| == before && r.size == size
      && (mode.Once? ==> r.mode == Once && waits == 0 && !Waiting(s.consumer))
      && (mode.First? ==> r.mode == mode || (r.mode == Second(mode.timeout) && !Waiting(s.consumer)))
      && (mode.First? && mode.timeout ==>
            waits == if s.consumer.CSample? || s.consumer.CSetWaiting? then 0
                     else if Waiting(s.consumer) || r.mode.Second? then 1 else 0)
  }

  lemma CallGoesOn(c: Config, s: State, a: Action, size: Uint16, mode: Mode, before: nat, waits: nat)
    requires ValidConfig(c) && !mode.Second? && InCall(size, mode, before, waits, s)
    requires Next(c, s, a).Some? && !a.Read?
    ensures InCall(size, mode, before, waits + (if a.ConsumerRuns? && s.consumer.CSetWaiting? then 1 else 0),
                   Next(c, s, a).value)
  {
    hide Index, PowerOfTwo;
    match a
    case Write(rec) =>
    case ProducerRuns => ProducerApart(c, s);
    case ConsumerRuns => ConsumerGoesOn(c, s, size, mode, before, waits);
    case Wakeup =>
  }

  /** The producer delivers nothing, and all it does to the consumer is to wake it. */
  lemma ProducerApart(c: Config, s: State)
    requires ValidConfig(c)
    ensures var t := ProducerStep(c, s);
      && t.delivered == s.delivered
      && (t.consumer == s.consumer || (s.consumer.CAsleep? && t.consumer == CClear(s.consumer.r)))
  {
    hide Index, PowerOfTwo;
  }

  lemma ConsumerGoesOn(c: Config, s: State, size: Uint16, mode: Mode, before: nat, waits: nat)
    requires ValidConfig(c) && !mode.Second? && InCall(size, mode, before, waits, s)
    requires !s.consumer.CIdle? && !s.consumer.CAsleep?
    ensures InCall(size, mode, before, waits + (if s.consumer.CSetWaiting? then 1 else 0), ConsumerStep(c, s))
  {
    hide Index, PowerOfTwo;
  }

  lemma {:induction false} CallRuns(c: Config, s: State, actions: seq<Action>, size: Uint16, mode: Mode, before: nat)
    requires ValidConfig(c) && !mode.Second? && InCall(size, mode, before, 0, s)
    requires NoReads(actions) && Run(c, s, actions).Some?
    ensures InCall(size, mode, before, Waits(c, s, actions), Run(c, s, actions).value)
  {
    hide InCall, Next, PowerOfTwo;
    if actions != [] {
      var front := actions[..|actions| - 1];
      CallRuns(c, s, front, size, mode, before);
      CallGoesOn(c, Run(c, s, front).value, actions[|actions| - 1], size, mode, before, Waits(c, s, front));
    }
  }

  lemma CallBegins(c: Config, s: State, size: Uint16, mode: Mode)
    requires ValidConfig(c) && s.consumer.CIdle? && !mode.Second?
    ensures Next(c, s, Read(size, mode)).Some?
    ensures var t := Next(c, s, Read(size, mode)).value;
      t.delivered == s.delivered && InCall(size, mode, |s.delivered|, 0, t)
  {
  }

  /** Whatever the interleaving, as long as it waits without a timeout the call comes back with one record, and with no
      less; with a timeout it comes back with one, or with none after exactly one wait, and never waits twice; and a
      plain read never waits. */
  lemma CallComesBack(c: Config, s: State, size: Uint16, mode: Mode, actions: seq<Action>)
    requires ValidConfig(c) && s.consumer.CIdle? && !mode.Second? && NoReads(actions)
    requires Run(c, Next(c, s, Read(size, mode)).value, actions).Some?
    ensures var called := Next(c, s, Read(size, mode)).value;
      var t, waits := Run(c, called, actions).value, Waits(c, called, actions);
      && (mode == First(false) && t.consumer.CIdle? ==> |t.delivered| == |s.delivered| + 1)
      && (mode == First(true) && t.consumer.CIdle? ==>
            |t.delivered| == |s.delivered| + 1 || (|t.delivered| == |s.delivered| && waits == 1))
      && (mode == First(true) ==> waits <= 1)
      && (mode == Once ==> waits == 0 && !Waiting(t.consumer) && |t.delivered| <= |s.delivered| + 1)
  {
    hide Run, Next, PowerOfTwo;
    CallBegins(c, s, size, mode);
    CallRuns(c, Next(c, s, Read(size, mode)).value, actions, size, mode, |s.delivered|);
  }

  /** A read finds no record just when the ring was empty as the consumer looked at the write index, however long ago
      that was. */
  lemma FoundExactly(c: Config, s: State, t: State)
    requires ValidConfig(c) && Inv(c, s) && s.consumer.CLoadWrite?
    requires t.consumer == ConsumerStep(c, s).consumer && Inv(c, t)
    ensures ConsumerStep(c, t).consumer.CLength? <==> Queue(s) != []
    ensures s.consumer.r.mode == Once ==> (ConsumerStep(c, t).consumer.CIdle? <==> Queue(s) == [])
  {
    hide PowerOfTwo, QueueInv, HistoryInv, ProducerInv, FutexInv, Index;
  }
}
