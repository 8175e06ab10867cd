/** The scene detector of src/star6e_runtime.c: a moving average of frame sizes that asks for a key frame once a jump
    in size has settled. */
module SceneDetector {
  import opened Arith
  import opened Bytes

  const EMA_SHIFT := 16      // 1 << 4
  const WARMUP_FRAMES := 8
  const COOLDOWN_AFTER_IDR := 30
  const SIZE_MAX := 4294967  // UINT32_MAX / 1000
  const SETTLE_RATIO := 120
  const SETTLE_MAX := 30
  const DEFAULT_THRESHOLD := 150
  const DEFAULT_HOLDOFF := 2

  /** What the detector sees of an encoder frame. */
  datatype Frame = Frame(size: Uint32, idr: bool)

  datatype Scene = Scene(
    ema: Uint32, frameCount: Uint32, lastSize: Uint32, lastIdr: bool, cooldown: Uint16, settle: Uint16, pending: bool,
    requested: bool, complexity: Byte, change: bool, sinceIdr: Uint16, threshold: Uint16, holdoff: Byte,
    consecutive: Byte, enabled: bool, warm: bool)

  function Init(threshold: Uint16, holdoff: Byte): Scene
  {
    Scene(0, 0, 0, false, 0, 0, false, false, 0, false, 0, if threshold > 0 then threshold else DEFAULT_THRESHOLD,
          if holdoff > 0 then holdoff else DEFAULT_HOLDOFF, 0, threshold > 0, false)
  }

  /** The size the detector works with. */
  function Clamped(size: Uint32): (r: Uint32)
    ensures r <= SIZE_MAX
  {
    Min(size, SIZE_MAX)
  }

  function Next16(n: Uint16): Uint16 { if n < 0xFFFF then n + 1 else n }

  function Next32(n: Uint32): Uint32 { if n < 0xFFFF_FFFF then n + 1 else n }

  function Next8(n: Byte): Byte { (n + 1) % 0x100 }

  /** The average, a sixteenth of the way to the new size, both in 1/256 of a byte. */
  function NewEma(ema: Uint32, size: Uint32): Uint32
  {
    if size > ema then ema + (size - ema) / EMA_SHIFT else ema - (ema - size) / EMA_SHIFT
  }

  /** The size in hundredths of the average. */
  function Ratio(size: Uint32, ema: Uint32): Uint32
    requires size <= SIZE_MAX
  {
    if ema / 256 > 0 then size * 100 / (ema / 256) else 100
  }

  function Complexity(ratio: Uint32): Byte
  {
    if ratio <= 50 then ratio * 128 / 100 else if ratio >= 300 then 255 else 64 + (ratio - 50) * 191 / 250
  }

  /** The counters a frame moves. */
  function Counted(s: Scene, f: Frame): Scene
  {
    s.(lastSize := Clamped(f.size), lastIdr := f.idr, frameCount := Next32(s.frameCount), requested := false,
       change := false)
  }

  /** A key frame resets, and starts the cooldown. */
  function Reset(s: Scene, idr: bool): Scene
  {
    if idr then s.(sinceIdr := 0, pending := false, settle := 0, consecutive := 0, cooldown := COOLDOWN_AFTER_IDR)
    else s.(sinceIdr := Next16(s.sinceIdr))
  }

  /** What a warmed-up, enabled detector decides outside the cooldown. */
  function Decide(s: Scene, ratio: Uint32): Scene
  {
    if s.pending then
      if ratio <= SETTLE_RATIO then s.(pending := false, settle := 0, change := true, requested := true)
      else if Wrap16(s.settle + 1) > SETTLE_MAX then s.(pending := false, settle := 0)
      else s.(settle := Wrap16(s.settle + 1))
    else if ratio >= s.threshold then
      s.(consecutive := Next8(s.consecutive), pending := Next8(s.consecutive) >= s.holdoff)
    else s.(consecutive := 0)
  }

  /** Decisions wait for the warm-up and the cooldown, and for the detector to be enabled. */
  function Act(s: Scene, ratio: Uint32): Scene
  {
    if !s.warm then s.(warm := s.frameCount > WARMUP_FRAMES)
    else if !s.enabled then s
    else if s.cooldown > 0 then s.(cooldown := s.cooldown - 1)
    else Decide(s, ratio)
  }

  /** One frame. */
  function Step(s: Scene, f: Frame): Scene
  {
    var size := Clamped(f.size);
    var s1 := Reset(Counted(s, f), f.idr);
    if s1.frameCount == 1 then s1.(ema := size * 256)
    else
      var ema := NewEma(s1.ema, size * 256);
      var ratio := Ratio(size, ema);
      Act(s1.(ema := ema, complexity := Complexity(ratio)), ratio)
  }

  /** The state after a run of frames. */
  function Run(s: Scene, fs: seq<Frame>): Scene
  {
    if fs == [] then s else Step(Run(s, fs[..|fs| - 1]), fs[|fs| - 1])
  }

  // ---- what holds over every run ----

  lemma RunLast(s: Scene, fs: seq<Frame>, f: Frame)
    ensures Run(s, fs + [f]) == Step(Run(s, fs), f)
  {
    assert (fs + [f])[..|fs|] == fs;
  }

  lemma StepEma(s: Scene, f: Frame)
    ensures Step(s, f).frameCount == Next32(s.frameCount)
    ensures Step(s, f).ema
         == if Next32(s.frameCount) == 1 then Clamped(f.size) * 256 else NewEma(s.ema, Clamped(f.size) * 256)
  {
    hide NewEma, Ratio, Complexity, Clamped, Next32;
  }

  lemma NewEmaWithin(ema: Uint32, size: Uint32, lo: nat, hi: nat)
    requires lo <= ema <= hi && lo <= size <= hi
    ensures lo <= NewEma(ema, size) <= hi
  {
  }

  /** The average lies between any bounds of the sizes seen. */
  lemma {:induction false} EmaWithin(threshold: Uint16, holdoff: Byte, fs: seq<Frame>, lo: nat, hi: nat)
    requires fs != [] && forall i :: 0 <= i < |fs| ==> lo <= Clamped(fs[i].size) <= hi
    ensures lo * 256 <= Run(Init(threshold, holdoff), fs).ema <= hi * 256
  {
    hide Step, NewEma, Clamped;
    var init, before, f := Init(threshold, holdoff), fs[..|fs| - 1], fs[|fs| - 1];
    Counts(init, before);
    StepEma(Run(init, before), f);
    if |fs| > 1 {
      EmaWithin(threshold, holdoff, before, lo, hi);
      NewEmaWithin(Run(init, before).ema, Clamped(f.size) * 256, lo * 256, hi * 256);
    }
  }

  /** The frame counter stops at its largest value. */
  lemma {:induction false} Counts(s: Scene, fs: seq<Frame>)
    requires s.frameCount == 0
    ensures Run(s, fs).frameCount == Min(|fs|, 0xFFFF_FFFF)
  {
    hide Step;
    if fs != [] {
      Counts(s, fs[..|fs| - 1]);
      StepEma(Run(s, fs[..|fs| - 1]), fs[|fs| - 1]);
    }
  }

  /** The counters of a state a run can reach, after an IDR frame or before any. */
  predicate Inv(s: Scene, seen: bool)
  {
    && s.settle <= SETTLE_MAX && s.cooldown <= COOLDOWN_AFTER_IDR && s.holdoff > 0
    && (s.pending ==> s.enabled && s.warm && s.cooldown == 0 && s.consecutive >= s.holdoff)
    && (!s.pending ==> s.settle == 0)
    && (s.cooldown > 0 ==> s.consecutive == 0)
    && (seen && s.cooldown > 0 ==> s.sinceIdr + s.cooldown >= 29)
    && (seen && s.cooldown == 0 ==> s.sinceIdr >= 29 + s.consecutive)
    && (s.consecutive > 0 ==> s.warm && s.enabled) && (s.warm ==> s.frameCount >= WARMUP_FRAMES + 1 + s.consecutive)
  }

  lemma StepKeeps(s: Scene, f: Frame, seen: bool)
    requires Inv(s, seen)
    ensures Inv(Step(s, f), seen || f.idr)
    ensures Step(s, f).requested ==> s.pending && Step(s, f).sinceIdr == Next16(s.sinceIdr)
    ensures Step(s, f).threshold == s.threshold && Step(s, f).holdoff == s.holdoff && Step(s, f).enabled == s.enabled
  {
    hide NewEma, Ratio, Complexity, Clamped;
  }

  predicate Seen(fs: seq<Frame>) { exists i :: 0 <= i < |fs| && fs[i].idr }

  lemma {:induction false} RunKeeps(threshold: Uint16, holdoff: Byte, fs: seq<Frame>)
    ensures var s := Run(Init(threshold, holdoff), fs);
      && Inv(s, Seen(fs)) && s.enabled == (threshold > 0) && s.threshold == Init(threshold, holdoff).threshold
      && s.holdoff == (if holdoff > 0 then holdoff else DEFAULT_HOLDOFF)
  {
    hide Step, Inv;
    if fs == [] {
      InitInv(threshold, holdoff);
    } else {
      var before, f := fs[..|fs| - 1], fs[|fs| - 1];
      RunKeeps(threshold, holdoff, before);
      StepKeeps(Run(Init(threshold, holdoff), before), f, Seen(before));
      SeenLast(fs);
    }
  }

  lemma InitInv(threshold: Uint16, holdoff: Byte)
    ensures Inv(Init(threshold, holdoff), false) && !Seen([])
  {
  }

  lemma SeenLast(fs: seq<Frame>)
    requires fs != []
    ensures Seen(fs) <==> Seen(fs[..|fs| - 1]) || fs[|fs| - 1].idr
  {
    if Seen(fs) {
      var i :| 0 <= i < |fs| && fs[i].idr;
      if i < |fs| - 1 {
        assert fs[..|fs| - 1][i].idr;
      }
    }
  }

  /** The frames `sinceIdr` counts are no IDR frames. */
  lemma {:induction false} SinceIdr(s: Scene, fs: seq<Frame>, j: nat)
    requires s.sinceIdr == 0 && j < |fs| && |fs| - j <= Run(s, fs).sinceIdr
    ensures !fs[j].idr
  {
    var before := fs[..|fs| - 1];
    StepSince(Run(s, before), fs[|fs| - 1]);
    if j < |fs| - 1 {
      SinceIdr(s, before, j);
    }
  }

  lemma StepSince(s: Scene, f: Frame)
    ensures Step(s, f).sinceIdr == if f.idr then 0 else Next16(s.sinceIdr)
  {
  }

  /** A key frame is asked for only by an enabled detector, not during the warm-up and the spikes that must follow it,
      and only if none of the last 30 frames and `holdoff` more was one. */
  lemma Requests(threshold: Uint16, holdoff: Byte, fs: seq<Frame>)
    requires fs != [] && Run(Init(threshold, holdoff), fs).requested
    ensures var h: int := if holdoff > 0 then holdoff else DEFAULT_HOLDOFF;
      && threshold > 0 && |fs| > WARMUP_FRAMES + 1 + h
      && (forall j :: 0 <= j < |fs| && |fs| - j < 31 + h ==> !fs[j].idr)
  {
    hide Step, Inv;
    var init, before := Init(threshold, holdoff), fs[..|fs| - 1];
    var s := Run(init, before);
    RunKeeps(threshold, holdoff, before);
    RunKeeps(threshold, holdoff, fs);
    StepKeeps(s, fs[|fs| - 1], Seen(before));
    Counts(init, before);
    PendingSince(s, Seen(before));
    forall j | 0 <= j < |fs| && |fs| - j < 31 + s.holdoff ensures !fs[j].idr {
      if fs[j].idr {
        SeenAt(fs, j);
        NotThisFrame(s, fs[|fs| - 1]);
        SeenLast(fs);
        SinceIdr(init, fs, j);
      }
    }
  }

  /** The bound is met: nine frames of one size, a jump and a return make the earliest request there can be. */
  lemma EarliestRequest()
    ensures var fs := seq(9, _ => STEADY) + [JUMP, STEADY]; Run(Init(150, 1), fs).requested
  {
    hide Step, Run;
    var init, nine := Init(150, 1), seq(9, _ => STEADY);
    Steady(9, 1);
    RunLast(init, nine, JUMP);
    RunLast(init, nine + [JUMP], STEADY);
    FirstJump(1);
    Return(Step(SteadyScene(9, 1), JUMP));
    assert nine + [JUMP, STEADY] == (nine + [JUMP]) + [STEADY];
  }

  const STEADY := Frame(1600, false)
  const JUMP := Frame(4800, false)

  function SteadyScene(n: nat, holdoff: Byte): Scene
    requires 0 < n <= 9
  {
    Init(150, holdoff).(ema := 1600 * 256, frameCount := n, lastSize := 1600, sinceIdr := n,
                        complexity := if n == 1 then 0 else 102, warm := n == 9)
  }

  lemma {:induction false} Steady(n: nat, holdoff: Byte)
    requires 0 < n <= 9
    ensures Run(Init(150, holdoff), seq(n, _ => STEADY)) == SteadyScene(n, holdoff)
  {
    hide Run, Step;
    var init := Init(150, holdoff);
    assert seq(n, _ => STEADY) == seq(n - 1, _ => STEADY) + [STEADY];
    RunLast(init, seq(n - 1, _ => STEADY), STEADY);
    if n == 1 {
      assert seq(0, _ => STEADY) == [];
      RunNone(init);
      FirstSteady(holdoff);
    } else {
      Steady(n - 1, holdoff);
      NextSteady(n - 1, holdoff);
    }
  }

  lemma FirstSteady(holdoff: Byte)
    ensures Step(Init(150, holdoff), STEADY) == SteadyScene(1, holdoff)
  {
    hide NewEma, Ratio, Complexity;
  }

  lemma NextSteady(n: nat, holdoff: Byte)
    requires 0 < n <= 8
    ensures Step(SteadyScene(n, holdoff), STEADY) == SteadyScene(n + 1, holdoff)
  {
    assert NewEma(1600 * 256, 1600 * 256) == 1600 * 256 && Ratio(1600, 1600 * 256) == 100 && Complexity(100) == 102;
    hide NewEma, Ratio, Complexity;
  }

  lemma RunNone(s: Scene)
    ensures Run(s, []) == s
  {
  }

  /** Warmed up, outside the cooldown, with the given average. */
  predicate Watching(s: Scene, ema: Uint32)
  {
    s.ema == ema && s.warm && s.enabled && s.cooldown == 0 && s.frameCount >= 9 && s.threshold == 150
  }

  lemma FirstJump(holdoff: Byte)
    requires 0 < holdoff
    ensures var t := Step(SteadyScene(9, holdoff), JUMP);
      Watching(t, 1800 * 256) && t.consecutive == 1 && t.holdoff == holdoff && t.pending == (holdoff == 1)
  {
    assert NewEma(1600 * 256, 4800 * 256) == 1800 * 256 && Ratio(4800, 1800 * 256) == 266;
    hide NewEma, Ratio, Complexity;
  }

  lemma Return(t: Scene)
    requires Watching(t, 1800 * 256) && t.pending
    ensures Step(t, STEADY).requested
  {
    assert NewEma(1800 * 256, 1600 * 256) == 457600 && Ratio(1600, 457600) == 89;
    hide NewEma, Ratio, Complexity;
  }

  lemma SeenAt(fs: seq<Frame>, j: nat)
    requires j < |fs| && fs[j].idr
    ensures Seen(fs)
  {
  }

  lemma NotThisFrame(s: Scene, f: Frame)
    requires Step(s, f).requested
    ensures !f.idr
  {
  }

  lemma PendingSince(s: Scene, seen: bool)
    requires Inv(s, seen) && s.pending
    ensures s.enabled && s.frameCount >= WARMUP_FRAMES + 1 + s.holdoff
    ensures seen ==> s.sinceIdr >= 29 + s.holdoff
  {
  }

  /** A pending spike is over after at most 31 frames more, whatever they are. */
  lemma PendingClears(threshold: Uint16, holdoff: Byte, fs: seq<Frame>, more: seq<Frame>)
    requires |more| == 31
    ensures exists n :: 0 <= n <= 31 && !Run(Init(threshold, holdoff), fs + more[..n]).pending
  {
    hide Step, Run, Inv;
    var init := Init(threshold, holdoff);
    RunKeeps(threshold, holdoff, fs);
    var n := Settles(Run(init, fs), Seen(fs), more);
    RunAppend(init, fs, more[..n]);
  }

  /** When a pending spike is over. */
  lemma {:induction false} Settles(s: Scene, seen: bool, more: seq<Frame>) returns (n: nat)
    requires Inv(s, seen) && s.settle + |more| >= 31
    ensures n <= |more| && !Run(s, more[..n]).pending
    decreases |more|
  {
    hide Step;
    if !s.pending || more == [] {
      return 0;
    }
    var f, rest := more[0], more[1..];
    StepKeeps(s, f, seen);
    PendingSettles(s, f, seen);
    if !Step(s, f).pending {
      assert more[..1] == [] + [f];
      RunLast(s, [], f);
      return 1;
    }
    n := Settles(Step(s, f), seen || f.idr, rest);
    RunFirst(s, f, rest[..n]);
    n := n + 1;
    assert more[..n] == [f] + rest[..n - 1];
  }

  lemma {:induction false} RunFirst(s: Scene, f: Frame, rest: seq<Frame>)
    ensures Run(s, [f] + rest) == Run(Step(s, f), rest)
  {
    hide Step;
    if rest == [] {
      assert [f] + rest == [] + [f];
      RunLast(s, [], f);
    } else {
      var last := rest[|rest| - 1];
      RunFirst(s, f, rest[..|rest| - 1]);
      assert [f] + rest == ([f] + rest[..|rest| - 1]) + [last];
      RunLast(s, [f] + rest[..|rest| - 1], last);
    }
  }

  lemma {:induction false} RunAppend(s: Scene, a: seq<Frame>, b: seq<Frame>)
    ensures Run(s, a + b) == Run(Run(s, a), b)
  {
    hide Step;
    if b == [] {
      assert a + b == a;
    } else {
      RunAppend(s, a, b[..|b| - 1]);
      assert a + b == (a + b[..|b| - 1]) + [b[|b| - 1]];
      RunLast(s, a + b[..|b| - 1], b[|b| - 1]);
    }
  }

  lemma PendingSettles(s: Scene, f: Frame, seen: bool)
    requires Inv(s, seen) && s.pending
    ensures Step(s, f).pending ==> Step(s, f).settle == s.settle + 1
  {
    hide NewEma, Ratio, Complexity, Clamped;
  }

  // ---- how many frames over the threshold make a spike ----

  /** The frame is over the threshold. The first one is compared with nothing. */
  predicate Over(s: Scene, f: Frame)
  {
    s.frameCount > 0 && Ratio(Clamped(f.size), NewEma(s.ema, Clamped(f.size) * 256)) >= s.threshold
  }

  /** How many frames at the end of a run were over the threshold, one after the other. */
  function OverAtEnd(s: Scene, fs: seq<Frame>): nat
  {
    if fs == [] then 0
    else if Over(Run(s, fs[..|fs| - 1]), fs[|fs| - 1]) then OverAtEnd(s, fs[..|fs| - 1]) + 1
    else 0
  }

  /** A spike takes `holdoff` frames over the threshold in a row, if the counter is clear and no spike came before. */
  lemma {:induction false} FreshSpike(s: Scene, seen: bool, fs: seq<Frame>)
    requires Inv(s, seen) && s.consecutive == 0 && !s.pending
    requires forall n :: 0 <= n < |fs| ==> !Run(s, fs[..n]).pending
    ensures Run(s, fs).consecutive <= OverAtEnd(s, fs)
    ensures Run(s, fs).pending ==> OverAtEnd(s, fs) >= s.holdoff
    ensures Run(s, fs).holdoff == s.holdoff && exists seen' :: Inv(Run(s, fs), seen')
  {
    hide Step, Inv, Over;
    if fs != [] {
      var before, f := fs[..|fs| - 1], fs[|fs| - 1];
      assert forall n :: 0 <= n < |before| ==> before[..n] == fs[..n];
      FreshSpike(s, seen, before);
      assert !Run(s, before).pending;
      var seen' :| Inv(Run(s, before), seen');
      StepKeeps(Run(s, before), f, seen');
      StepCounter(Run(s, before), f, seen');
    }
  }

  lemma StepCounter(s: Scene, f: Frame, seen: bool)
    requires Inv(s, seen) && !s.pending
    ensures Step(s, f).consecutive <= if Over(s, f) then s.consecutive + 1 else 0
    ensures Step(s, f).pending <==> Step(s, f).consecutive >= s.holdoff
    ensures Step(s, f).consecutive == 0 || Step(s, f).consecutive >= s.consecutive
  {
    hide NewEma, Ratio, Complexity, Clamped;
  }

  /** The last frame ended a spike, by a request or by a time-out. */
  predicate JustEnded(s: Scene, fs: seq<Frame>)
  {
    fs != [] && Run(s, fs[..|fs| - 1]).pending && !Run(s, fs).pending
  }

  /** But the counter is not cleared when a spike ends, unless by an IDR frame: then one more frame over the threshold
      makes the next spike at once, unless the counter wraps around. */
  lemma StaleSpike(s: Scene, seen: bool, last: Frame, next: Frame)
    requires Inv(s, seen) && s.pending && !Step(s, last).pending && !last.idr && !next.idr
    ensures Step(Step(s, last), next).pending <==> Over(Step(s, last), next) && s.consecutive != 0xFF
  {
    hide NewEma, Ratio, Complexity, Clamped;
    Ended(s, seen, last);
    Again(Step(s, last), next);
  }

  lemma Ended(s: Scene, seen: bool, last: Frame)
    requires Inv(s, seen) && s.pending && !Step(s, last).pending && !last.idr
    ensures var t := Step(s, last);
      t.consecutive == s.consecutive >= t.holdoff > 0 && t.warm && t.enabled && t.cooldown == 0 && t.frameCount > 1
  {
    hide NewEma, Ratio, Complexity, Clamped;
  }

  lemma Again(t: Scene, next: Frame)
    requires !t.pending && t.consecutive >= t.holdoff > 0 && t.warm && t.enabled && t.cooldown == 0 && t.frameCount > 1
    requires !next.idr
    ensures Step(t, next).pending <==> Over(t, next) && t.consecutive != 0xFF
  {
    hide NewEma, Ratio, Complexity, Clamped;
  }

  lemma StepEnds(s: Scene, f: Frame, seen: bool)
    requires Inv(s, seen) && s.pending && !Step(s, f).pending
    ensures Step(s, f).consecutive == 0 || Step(s, f).consecutive >= s.holdoff
  {
    hide NewEma, Ratio, Complexity, Clamped;
  }

  /** The counter never runs ahead of the frames over the threshold, except right behind a spike. */
  lemma {:induction false} CounterOver(threshold: Uint16, holdoff: Byte, fs: seq<Frame>)
    ensures var init, s := Init(threshold, holdoff), Run(Init(threshold, holdoff), fs);
      && (!s.pending && s.consecutive < s.holdoff ==> s.consecutive <= OverAtEnd(init, fs))
      && (!s.pending && !JustEnded(init, fs) ==> s.consecutive < s.holdoff)
  {
    hide Step, Inv, Over;
    RunKeeps(threshold, holdoff, fs);
    if fs == [] {
      InitInv(threshold, holdoff);
      InitHoldoff(threshold, holdoff);
    } else {
      var before, f := fs[..|fs| - 1], fs[|fs| - 1];
      var s := Run(Init(threshold, holdoff), before);
      CounterOver(threshold, holdoff, before);
      RunKeeps(threshold, holdoff, before);
      if s.pending {
        if !Step(s, f).pending {
          StepEnds(s, f, Seen(before));
        }
      } else {
        StepCounter(s, f, Seen(before));
      }
    }
  }

  lemma InitHoldoff(threshold: Uint16, holdoff: Byte)
    ensures Init(threshold, holdoff).consecutive < Init(threshold, holdoff).holdoff
  {
  }

  /** Exactly when a spike takes fewer than `holdoff` frames over the threshold in a row: if the frame before it ended a
      spike and too few such frames came before it, both of which are known before it. */
  lemma SpikeLength(threshold: Uint16, holdoff: Byte, fs: seq<Frame>, f: Frame)
    requires !Run(Init(threshold, holdoff), fs).pending && Run(Init(threshold, holdoff), fs + [f]).pending
    ensures var init := Init(threshold, holdoff);
      && OverAtEnd(init, fs + [f]) == OverAtEnd(init, fs) + 1
      && (OverAtEnd(init, fs + [f]) < init.holdoff
          <==> JustEnded(init, fs) && OverAtEnd(init, fs) + 1 < init.holdoff)
      && (Run(init, fs).requested && init.threshold > SETTLE_RATIO ==> OverAtEnd(init, fs + [f]) == 1)
  {
    hide Step, Inv, Over;
    var init := Init(threshold, holdoff);
    var s := Run(init, fs);
    RunKeeps(threshold, holdoff, fs);
    CounterOver(threshold, holdoff, fs);
    RunLast(init, fs, f);
    StepCounter(s, f, Seen(fs));
    SpikeOver(s, f, Seen(fs));
    assert (fs + [f])[..|fs|] == fs;
    if s.requested && init.threshold > SETTLE_RATIO {
      RequestedOver(threshold, holdoff, fs);
    }
  }

  lemma SpikeOver(s: Scene, f: Frame, seen: bool)
    requires Inv(s, seen) && !s.pending && Step(s, f).pending
    ensures Over(s, f)
  {
    hide NewEma, Ratio, Complexity, Clamped;
  }

  /** A frame that ends a spike by a request is small. */
  lemma RequestedOver(threshold: Uint16, holdoff: Byte, fs: seq<Frame>)
    requires Run(Init(threshold, holdoff), fs).requested && Init(threshold, holdoff).threshold > SETTLE_RATIO
    ensures OverAtEnd(Init(threshold, holdoff), fs) == 0
  {
    hide Step, Inv, Over;
    var init := Init(threshold, holdoff);
    RunKeeps(threshold, holdoff, fs);
    if fs != [] {
      var before, f := fs[..|fs| - 1], fs[|fs| - 1];
      RunKeeps(threshold, holdoff, before);
      StepKeeps(Run(init, before), f, Seen(before));
      NotThisFrame(Run(init, before), f);
      StepRequested(Run(init, before), f, Seen(before));
    }
  }

  lemma StepRequested(s: Scene, f: Frame, seen: bool)
    requires Inv(s, seen) && Step(s, f).requested && s.threshold > SETTLE_RATIO
    ensures !Over(s, f)
  {
    hide NewEma, Ratio, Complexity, Clamped;
  }

  /** A spike on a single frame over the threshold, with a `holdoff` of two: the frame before it made a request. */
  lemma SpikeOnOneFrame()
    ensures var init, fs := Init(150, 2), seq(9, _ => STEADY) + [JUMP, JUMP, STEADY];
      && !Run(init, fs).pending && Run(init, fs + [JUMP]).pending
      && JustEnded(init, fs) && OverAtEnd(init, fs + [JUMP]) == 1 < init.holdoff
  {
    hide Step, Run, OverAtEnd;
    var init, nine := Init(150, 2), seq(9, _ => STEADY);
    Steady(9, 2);
    FirstJump(2);
    var t1 := Step(SteadyScene(9, 2), JUMP);
    SecondJump(t1);
    var t2 := Step(t1, JUMP);
    RequestAfter(t2);
    ThirdJump(Step(t2, STEADY));
    RunLast(init, nine, JUMP);
    RunLast(init, nine + [JUMP], JUMP);
    RunLast(init, nine + [JUMP] + [JUMP], STEADY);
    var fs := nine + [JUMP, JUMP, STEADY];
    assert fs == nine + [JUMP] + [JUMP] + [STEADY];
    assert fs[..|fs| - 1] == nine + [JUMP] + [JUMP];
    RunLast(init, fs, JUMP);
    SpikeLength(150, 2, fs, JUMP);
  }

  lemma SecondJump(t: Scene)
    requires Watching(t, 1800 * 256) && t.consecutive == 1 && t.holdoff == 2 && !t.pending
    ensures var u := Step(t, JUMP); Watching(u, 508800) && u.consecutive == 2 && u.holdoff == 2 && u.pending
  {
    assert NewEma(1800 * 256, 4800 * 256) == 508800 && Ratio(4800, 508800) == 241;
    hide NewEma, Ratio, Complexity;
  }

  lemma RequestAfter(t: Scene)
    requires Watching(t, 508800) && t.consecutive == 2 && t.holdoff == 2 && t.pending
    ensures var u := Step(t, STEADY);
      Watching(u, 502600) && u.consecutive == 2 && u.holdoff == 2 && !u.pending && u.requested
  {
    assert NewEma(508800, 1600 * 256) == 502600 && Ratio(1600, 502600) == 81;
    hide NewEma, Ratio, Complexity;
  }

  lemma ThirdJump(t: Scene)
    requires Watching(t, 502600) && t.consecutive == 2 && t.holdoff == 2 && !t.pending
    ensures Step(t, JUMP).pending
  {
    assert NewEma(502600, 4800 * 256) == 547987 && Ratio(4800, 547987) == 224;
    hide NewEma, Ratio, Complexity;
  }

  // ---- the detector itself ----

  /** One packet of an encoder frame: its bytes, the types of the NAL units it lists, and its own type. */
  datatype Pack = Pack(length: Uint32, packNum: Uint32, nalTypes: seq<Byte>, nalType: Byte)

  predicate PackOk(p: Pack) { |p.nalTypes| == 8 }

  function Lengths(packs: seq<Pack>): nat
  {
    if packs == [] then 0 else Lengths(packs[..|packs| - 1]) + packs[|packs| - 1].length
  }

  const CODEC_H264 := 0

  function IdrType(codec: int): Byte { if codec == CODEC_H264 then 5 else 19 }

  /** A packet counts as an IDR frame by the at most eight units it lists, or by its own type if it lists none. */
  predicate IsIdr(p: Pack, codec: int)
    requires PackOk(p)
  {
    if p.packNum == 0 then p.nalType == IdrType(codec)
    else exists k :: 0 <= k < 8 && k < p.packNum && p.nalTypes[k] == IdrType(codec)
  }

  method FrameSize(packs: seq<Pack>) returns (t: Uint32)
    ensures t == Wrap32(Lengths(packs))
  {
    t := 0;
    var i := 0;
    while i < |packs|
      invariant 0 <= i <= |packs| && t == Wrap32(Lengths(packs[..i]))
    {
      assert packs[..i + 1][..i] == packs[..i];
      Wrap32Add(Lengths(packs[..i]), packs[i].length);
      t := Wrap32(t + packs[i].length);
      i := i + 1;
    }
    assert packs[..|packs|] == packs;
  }

  method FrameType(packs: seq<Pack>, codec: int) returns (idr: bool)
    requires forall p :: p in packs ==> PackOk(p)
    ensures idr <==> exists i :: 0 <= i < |packs| && IsIdr(packs[i], codec)
  {
    var i := 0;
    while i < |packs|
      invariant 0 <= i <= |packs| && forall j :: 0 <= j < i ==> !IsIdr(packs[j], codec)
    {
      var p := packs[i];
      assert p in packs;
      var n := if p.packNum > 8 then 8 else p.packNum;
      if n > 0 {
        var k := 0;
        while k < n
          invariant 0 <= k <= n && forall j :: 0 <= j < k ==> p.nalTypes[j] != IdrType(codec)
        {
          if p.nalTypes[k] == IdrType(codec) {
            return true;
          }
          k := k + 1;
        }
      } else if p.nalType == IdrType(codec) {
        return true;
      }
      i := i + 1;
    }
    idr := false;
  }

  class Detector {
    var emaSizeFp8: Uint32
    var frameCount: Uint32
    var lastFrameSize: Uint32
    var lastFrameIdr: bool
    var cooldown: Uint16
    var settleCount: Uint16
    var spikePending: bool
    var idrInserted: bool
    var complexity: Byte
    var sceneChange: bool
    var framesSinceIdr: Uint16
    var threshold: Uint16
    var holdoff: Byte
    var consecutiveSpikes: Byte
    var idrEnabled: bool
    var warmupDone: bool

    ghost function State(): Scene
      reads this
    {
      Scene(emaSizeFp8, frameCount, lastFrameSize, lastFrameIdr, cooldown, settleCount, spikePending,
                                idrInserted, complexity, sceneChange, framesSinceIdr, threshold, holdoff,
                                consecutiveSpikes, idrEnabled, warmupDone)
    }

    constructor (threshold: Uint16, holdoff: Byte)
      ensures State() == Init(threshold, holdoff)
    {
      emaSizeFp8, frameCount, lastFrameSize, lastFrameIdr, cooldown, settleCount := 0, 0, 0, false, 0, 0;
      spikePending, idrInserted, complexity, sceneChange, framesSinceIdr := false, false, 0, false, 0;
      consecutiveSpikes, warmupDone := 0, false;
      this.threshold := if threshold > 0 then threshold else DEFAULT_THRESHOLD;
      this.holdoff := if holdoff > 0 then holdoff else DEFAULT_HOLDOFF;
      idrEnabled := threshold > 0;
    }

    /** One frame. The answer says whether a key frame was asked for. */
    method Update(packs: seq<Pack>, codec: int) returns (request: bool)
      requires forall p :: p in packs ==> PackOk(p)
      modifies this
      ensures State()
           == Step(old(State()),
                   Frame(Wrap32(Lengths(packs)), exists i :: 0 <= i < |packs| && IsIdr(packs[i], codec)))
      ensures request == idrInserted
    {
      hide Counted, Reset, NewEma, Ratio, Complexity, Act;
      request := false;
      var frameSize := FrameSize(packs);
      var idr := FrameType(packs, codec);
      var size := frameSize;
      if size > SIZE_MAX {
        size := SIZE_MAX;
      }
      Count(frameSize, size, idr);
      NoteIdr(idr);
      if frameCount == 1 {
        emaSizeFp8 := size * 256;
        return;
      }
      var ratioX100 := Track(size);
      request := ActOn(ratioX100);
    }

    method Count(ghost frameSize: Uint32, size: Uint32, idr: bool)
      requires size == Clamped(frameSize)
      modifies this
      ensures State() == Counted(old(State()), Frame(frameSize, idr)) && !idrInserted
    {
      lastFrameSize, lastFrameIdr := size, idr;
      if frameCount < 0xFFFF_FFFF {
        frameCount := frameCount + 1;
      }
      idrInserted, sceneChange := false, false;
    }

    method NoteIdr(idr: bool)
      modifies this
      ensures State() == Reset(old(State()), idr) && idrInserted == old(idrInserted)
    {
      if idr {
        framesSinceIdr, spikePending, settleCount, consecutiveSpikes := 0, false, 0, 0;
        cooldown := COOLDOWN_AFTER_IDR;
      } else if framesSinceIdr < 0xFFFF {
        framesSinceIdr := framesSinceIdr + 1;
      }
    }

    /** The average, the ratio and the complexity. */
    method Track(size: Uint32) returns (ratioX100: Uint32)
      requires size <= SIZE_MAX
      modifies this`emaSizeFp8, this`complexity
      ensures var ema := NewEma(old(emaSizeFp8), size * 256);
        ratioX100 == Ratio(size, ema) && State() == old(State()).(ema := ema, complexity := Complexity(ratioX100))
    {
      hide Complexity;
      var sizeFp8: Uint32 := size * 256;
      if sizeFp8 > emaSizeFp8 {
        emaSizeFp8 := emaSizeFp8 + (sizeFp8 as int - emaSizeFp8) / EMA_SHIFT;
      } else {
        emaSizeFp8 := emaSizeFp8 - (emaSizeFp8 as int - sizeFp8) / EMA_SHIFT;
      }
      ratioX100 := RatioOf(size, emaSizeFp8);
      complexity := ComplexityOf(ratioX100);
    }

    /** Nothing overflows 32 bits. */
    static method RatioOf(size: Uint32, ema: Uint32) returns (ratioX100: Uint32)
      requires size <= SIZE_MAX
      ensures ratioX100 == Ratio(size, ema)
    {
      var emaSize: Uint32 := ema / 256;
      var sizeX100: Uint32 := size * 100;
      ratioX100 := if emaSize > 0 then sizeX100 / emaSize else 100;
    }

    static method ComplexityOf(ratioX100: Uint32) returns (c: Byte)
      ensures c == Complexity(ratioX100)
    {
      if ratioX100 <= 50 {
        c := ratioX100 * 128 / 100;
      } else if ratioX100 >= 300 {
        c := 255;
      } else {
        c := 64 + (ratioX100 as int - 50) * 191 / 250;
      }
    }

    method ActOn(ratioX100: Uint32) returns (request: bool)
      requires !idrInserted
      modifies this
      ensures State() == Act(old(State()), ratioX100)
      ensures request == idrInserted
    {
      hide Decide;
      request := false;
      if !warmupDone {
        if frameCount > WARMUP_FRAMES {
          warmupDone := true;
        }
        return;
      }
      if !idrEnabled {
        return;
      }
      if cooldown > 0 {
        cooldown := cooldown - 1;
        return;
      }
      request := DecideOn(ratioX100);
    }

    method DecideOn(ratioX100: Uint32) returns (request: bool)
      requires !idrInserted
      modifies this
      ensures State() == Decide(old(State()), ratioX100)
      ensures request == idrInserted
    {
      request := false;
      if spikePending {
        if ratioX100 <= SETTLE_RATIO {
          spikePending, settleCount, sceneChange, idrInserted := false, 0, true, true;
          request := true;
        } else {
          settleCount := Wrap16(settleCount + 1);
          if settleCount > SETTLE_MAX {
            spikePending, settleCount := false, 0;
          }
        }
      } else if ratioX100 >= threshold {
        consecutiveSpikes := Next8(consecutiveSpikes);
        if consecutiveSpikes >= holdoff {
          spikePending := true;
        }
      } else {
        consecutiveSpikes := 0;
      }
    }
  }
}
