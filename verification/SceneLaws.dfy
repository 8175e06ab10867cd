/** What the scene detector of src/star6e_runtime.c does over any run of frames, told by the frames alone: when a spike
    begins, how long it stays pending, and when a key frame is asked for. */
module SceneLaws {
  import opened Arith
  import opened Bytes
  import opened SceneDetector

  /** The run from a new detector. */
  function After(threshold: Uint16, holdoff: Byte, fs: seq<Frame>): Scene
  {
    Run(Init(threshold, holdoff), fs)
  }

  function Size(f: Frame): nat { if f.size <= 4294967 then f.size else 4294967 }

  /** The frame is at most 120 hundredths of the average, in 1/256 of a byte. Where the average is less than a byte, it
      counts as 100 hundredths. */
  predicate Small(f: Frame, ema: nat) { 100 * Size(f) < 121 * (ema / 256) || ema / 256 == 0 }

  /** The frame is at least `threshold` hundredths of the average. */
  predicate Large(f: Frame, ema: nat, threshold: nat)
  {
    if ema / 256 == 0 then 100 >= threshold else 100 * Size(f) >= threshold * (ema / 256)
  }

  /** Where the last IDR frame is, or -1. */
  function LastIdr(fs: seq<Frame>): (k: int)
    ensures -1 <= k < |fs| && (k >= 0 ==> fs[k].idr) && forall j :: k < j < |fs| ==> !fs[j].idr
  {
    if fs == [] then -1 else if fs[|fs| - 1].idr then |fs| - 1 else LastIdr(fs[..|fs| - 1])
  }

  /** The last frame of a run is one the detector decides on: the tenth or a later one, and 30 frames behind each IDR
      frame and the warm-up. */
  predicate Decided(fs: seq<Frame>)
  {
    |fs| >= 10 && forall j :: 0 <= j < |fs| && fs[j].idr ==> |fs| >= 31 + j && |fs| >= 40
  }

  // ---- the average, the counters ----

  lemma RatioSmall(f: Frame, ema: Uint32)
    ensures Ratio(Clamped(f.size), ema) <= 120 <==> Small(f, ema)
  {
    var a := ema / 256;
    if a > 0 {
      DivBelow(Size(f) * 100, a, 121);
    }
  }

  lemma RatioLarge(f: Frame, ema: Uint32, threshold: nat)
    ensures Ratio(Clamped(f.size), ema) >= threshold <==> Large(f, ema, threshold)
  {
    var a := ema / 256;
    if a > 0 {
      DivBelow(Size(f) * 100, a, threshold);
    }
  }

  lemma DivBelow(x: nat, a: nat, q: nat)
    requires a > 0
    ensures x / a < q <==> x < q * a
  {
    assert x == x / a * a + x % a;
    if x / a < q {
      assert (x / a + 1) * a <= q * a;
    } else {
      assert x / a * a >= q * a;
    }
  }

  /** The first frame is the average, each later one moves it a sixteenth of the way, rounded towards where it was. */
  lemma AverageMoves(threshold: Uint16, holdoff: Byte, fs: seq<Frame>, f: Frame)
    ensures var before, now, x := After(threshold, holdoff, fs).ema, After(threshold, holdoff, fs + [f]).ema,
                                  256 * Size(f);
      if fs == [] then now == x
      else if x >= before then 16 * (now - before) <= x - before < 16 * (now - before) + 16
      else 16 * (before - now) <= before - x < 16 * (before - now) + 16
  {
    hide Step, Run, Ratio, Complexity;
    var init := Init(threshold, holdoff);
    Counts(init, fs);
    RunLast(init, fs, f);
    StepEma(Run(init, fs), f);
  }

  /** Complexity grows with the size in hundredths of the average, from 0 over 64 at half of it to 255 at three
      times. */
  lemma ComplexityGrows(r: Uint32, r': Uint32)
    requires r <= r'
    ensures Complexity(r) <= Complexity(r')
    ensures Complexity(0) == 0 && Complexity(50) == 64 && Complexity(100) == 102 && Complexity(300) == 255
    ensures r' <= r + 1 ==> Complexity(r') <= Complexity(r) + 2
  {
  }

  function Hundredths(size: nat, average: nat): Uint32
    requires size <= 4294967
  {
    if average == 0 then 100
    else
      DivBelow(100 * size, average, 0x1_0000_0000);
      100 * size / average
  }

  /** What is reported of a frame: its size and kind, and the complexity of its size in hundredths of the average. */
  lemma ReportedAre(threshold: Uint16, holdoff: Byte, fs: seq<Frame>, f: Frame)
    ensures var t := After(threshold, holdoff, fs + [f]);
      && t.lastSize == Size(f) && t.lastIdr == f.idr
      && (fs != [] ==> t.complexity == Complexity(Hundredths(Size(f), t.ema / 256)))
  {
    hide Run, NewEma, Complexity;
    var init := Init(threshold, holdoff);
    Counts(init, fs);
    RunLast(init, fs, f);
  }

  /** Warm-up, cooldown and the frames since the last IDR frame, exactly. */
  lemma {:induction false} CountersAre(threshold: Uint16, holdoff: Byte, fs: seq<Frame>)
    ensures var s, last := After(threshold, holdoff, fs), LastIdr(fs);
      && (s.warm <==> |fs| >= 9) && s.sinceIdr == Min(|fs| - 1 - last, 0xFFFF)
      && (threshold > 0 ==> s.cooldown == if last < 0 then 0 else Cooldown(last, |fs|))
  {
    hide Step;
    if fs != [] {
      var before, f := fs[..|fs| - 1], fs[|fs| - 1];
      CountersAre(threshold, holdoff, before);
      RunKeeps(threshold, holdoff, before);
      Counts(Init(threshold, holdoff), before);
      StepCounts(After(threshold, holdoff, before), f, Seen(before));
    }
  }

  /** What is left after `n` frames of the 30 frames of cooldown behind an IDR frame or the warm-up. */
  function Cooldown(last: nat, n: nat): nat
  {
    var from := if last < 9 then 9 else last;
    if n <= from then 30 else if n - from >= 30 then 0 else 30 - (n - from)
  }

  lemma StepCounts(s: Scene, f: Frame, seen: bool)
    requires Inv(s, seen)
    ensures var t := Step(s, f);
      && (t.warm <==> s.warm || s.frameCount >= 8) && t.sinceIdr == (if f.idr then 0 else Min(s.sinceIdr + 1, 0xFFFF))
      && (s.enabled ==> var c := if f.idr then 30 else s.cooldown;
                        t.cooldown == if s.warm && c > 0 then c - 1 else c)
  {
    hide NewEma, Ratio, Complexity, Clamped;
  }

  /** Which frames are decided on, by the counters. */
  lemma DecidedExactly(threshold: Uint16, holdoff: Byte, fs: seq<Frame>, f: Frame)
    requires threshold > 0
    ensures var s := After(threshold, holdoff, fs); Decided(fs + [f]) <==> s.warm && s.cooldown == 0 && !f.idr
  {
    hide Run;
    CountersAre(threshold, holdoff, fs);
    var all, last := fs + [f], LastIdr(fs);
    assert all[|fs|] == f && forall j :: 0 <= j < |fs| ==> all[j] == fs[j];
    if last >= 0 {
      assert all[last].idr;
    }
  }

  // ---- one frame ----

  lemma StepOutcome(s: Scene, f: Frame, seen: bool)
    requires Inv(s, seen)
    ensures var t := Step(s, f);
      && (t.requested <==> s.pending && !f.idr && Small(f, t.ema)) && t.change == t.requested
      && (s.pending ==> (t.pending <==> !f.idr && !Small(f, t.ema) && s.settle < 30))
      && (s.pending && t.pending ==> t.settle == s.settle + 1)
      && (!s.pending && t.pending ==> t.settle == 0)
      && (!s.pending ==> (t.pending <==> t.consecutive >= s.holdoff))
  {
    hide NewEma, Complexity, Clamped, Ratio, Small;
    if s.frameCount > 0 {
      RatioSmall(f, NewEma(s.ema, Clamped(f.size) * 256));
    }
  }

  lemma StepSpike(s: Scene, f: Frame, seen: bool)
    requires Inv(s, seen) && !s.pending
    ensures var t := Step(s, f);
      t.consecutive == if s.enabled && s.warm && s.cooldown == 0 && !f.idr && Large(f, t.ema, s.threshold)
                       then (s.consecutive + 1) % 0x100 else 0
  {
    hide NewEma, Complexity, Clamped, Ratio, Large;
    if s.frameCount > 0 {
      RatioLarge(f, NewEma(s.ema, Clamped(f.size) * 256), s.threshold);
    }
  }

  // ---- spikes over a run ----

  /** A key frame is asked for exactly if a spike is pending and the frame is small again and no IDR frame itself. */
  lemma RequestedExactly(threshold: Uint16, holdoff: Byte, fs: seq<Frame>, f: Frame)
    ensures After(threshold, holdoff, fs + [f]).requested
        <==> (&& After(threshold, holdoff, fs).pending && !f.idr
              && Small(f, After(threshold, holdoff, fs + [f]).ema))
    ensures After(threshold, holdoff, fs + [f]).change == After(threshold, holdoff, fs + [f]).requested
  {
    hide Step, Run, Inv, Small;
    RunKeeps(threshold, holdoff, fs);
    RunLast(Init(threshold, holdoff), fs, f);
    StepOutcome(After(threshold, holdoff, fs), f, Seen(fs));
  }

  /** A spike has been pending since the first `b` frames and not before. */
  predicate SpikeSince(threshold: Uint16, holdoff: Byte, fs: seq<Frame>, b: int)
  {
    && 0 < b <= |fs| && !After(threshold, holdoff, fs[..b - 1]).pending
    && forall n :: b <= n <= |fs| ==> After(threshold, holdoff, fs[..n]).pending
  }

  /** A pending spike stays pending, unless the frame is an IDR frame, is small, or is the 31st since the spike
      began. */
  lemma StaysPending(threshold: Uint16, holdoff: Byte, fs: seq<Frame>, f: Frame, b: nat)
    requires SpikeSince(threshold, holdoff, fs, b)
    ensures After(threshold, holdoff, fs + [f]).pending
        <==> (&& !f.idr && !Small(f, After(threshold, holdoff, fs + [f]).ema) && |fs + [f]| - b != 31)
    ensures |fs| - b <= 30
  {
    hide Step, Run, Inv, Small;
    RunKeeps(threshold, holdoff, fs);
    SettleIs(threshold, holdoff, fs, b);
    assert fs[..|fs|] == fs;
    RunLast(Init(threshold, holdoff), fs, f);
    StepOutcome(After(threshold, holdoff, fs), f, Seen(fs));
    SettleMost(After(threshold, holdoff, fs), Seen(fs));
  }

  lemma SettleMost(s: Scene, seen: bool)
    requires Inv(s, seen)
    ensures s.settle <= 30
  {
  }

  /** The counter of a pending spike is its age. */
  lemma {:induction false} SettleIs(threshold: Uint16, holdoff: Byte, fs: seq<Frame>, b: nat)
    requires SpikeSince(threshold, holdoff, fs, b)
    ensures After(threshold, holdoff, fs).settle == |fs| - b
  {
    hide Step, Inv, Small;
    var before, f := fs[..|fs| - 1], fs[|fs| - 1];
    RunKeeps(threshold, holdoff, before);
    StepOutcome(After(threshold, holdoff, before), f, Seen(before));
    assert fs[..|fs|] == fs && before + [f] == fs;
    if b < |fs| {
      assert forall n :: 0 <= n <= |before| ==> before[..n] == fs[..n];
      SettleIs(threshold, holdoff, before, b);
    }
  }

  /** Every pending spike began somewhere. */
  lemma {:induction false} Began(threshold: Uint16, holdoff: Byte, fs: seq<Frame>) returns (b: nat)
    requires After(threshold, holdoff, fs).pending
    ensures SpikeSince(threshold, holdoff, fs, b)
  {
    hide Step;
    var before := fs[..|fs| - 1];
    assert fs[..|fs|] == fs;
    if After(threshold, holdoff, before).pending {
      b := Began(threshold, holdoff, before);
      assert forall n :: 0 <= n <= |before| ==> before[..n] == fs[..n];
    } else {
      b := |fs|;
    }
  }

  /** The last `h` frames were all decided on and at least `threshold` hundredths of the average then. */
  predicate AllLarge(threshold: Uint16, holdoff: Byte, fs: seq<Frame>, h: nat)
  {
    && h <= |fs|
    && forall n :: |fs| - h < n <= |fs| ==>
      threshold > 0 && Decided(fs[..n]) && Large(fs[n - 1], After(threshold, holdoff, fs[..n]).ema, threshold)
  }

  /** The first spike begins exactly when that holds of the last `holdoff` frames, two if none are configured. */
  lemma SpikeBegins(threshold: Uint16, holdoff: Byte, fs: seq<Frame>)
    requires forall n :: 0 <= n < |fs| ==> !After(threshold, holdoff, fs[..n]).pending
    ensures After(threshold, holdoff, fs).pending
        <==> AllLarge(threshold, holdoff, fs, if holdoff == 0 then 2 else holdoff)
  {
    hide Step, Run, Decided;
    var h := if holdoff == 0 then 2 else holdoff;
    CounterIs(threshold, holdoff, fs, h);
  }

  lemma {:induction false} CounterIs(threshold: Uint16, holdoff: Byte, fs: seq<Frame>, h: nat)
    requires forall n :: 0 <= n < |fs| ==> !After(threshold, holdoff, fs[..n]).pending
    requires h <= if holdoff == 0 then 2 else holdoff
    ensures var s := After(threshold, holdoff, fs);
      && (s.consecutive >= h <==> AllLarge(threshold, holdoff, fs, h))
      && (s.pending <==> s.consecutive >= s.holdoff)
      && s.holdoff == (if holdoff == 0 then 2 else holdoff)
  {
    hide Step, Inv, Decided, Large;
    RunKeeps(threshold, holdoff, fs);
    if fs != [] {
      var before, f := fs[..|fs| - 1], fs[|fs| - 1];
      assert fs[..|fs|] == fs && before + [f] == fs;
      assert forall n :: 0 <= n <= |before| ==> before[..n] == fs[..n];
      CounterIs(threshold, holdoff, before, if h == 0 then 0 else h - 1);
      var s := After(threshold, holdoff, before);
      RunKeeps(threshold, holdoff, before);
      StepOutcome(s, f, Seen(before));
      StepSpike(s, f, Seen(before));
      if threshold > 0 {
        DecidedExactly(threshold, holdoff, before, f);
      }
      if h > 0 {
        LastLarge(threshold, holdoff, fs, h);
      }
    }
  }

  lemma LastLarge(threshold: Uint16, holdoff: Byte, fs: seq<Frame>, h: nat)
    requires fs != [] && 0 < h
    ensures AllLarge(threshold, holdoff, fs, h)
        <==> (&& threshold > 0 && Decided(fs) && Large(fs[|fs| - 1], After(threshold, holdoff, fs).ema, threshold)
              && AllLarge(threshold, holdoff, fs[..|fs| - 1], h - 1))
  {
    hide Decided, Large, After;
    var before := fs[..|fs| - 1];
    assert fs[..|fs|] == fs;
    assert forall n :: 0 <= n <= |before| ==> before[..n] == fs[..n];
  }

  // ---- the detector over a stream ----

  function FrameOf(packs: seq<Pack>, codec: int): Frame
    requires forall p :: p in packs ==> PackOk(p)
  {
    Frame(Wrap32(Lengths(packs)), exists i :: 0 <= i < |packs| && IsIdr(packs[i], codec))
  }

  function FramesOf(stream: seq<seq<Pack>>, codec: int): (fs: seq<Frame>)
    requires forall i :: 0 <= i < |stream| ==> forall p :: p in stream[i] ==> PackOk(p)
    ensures |fs| == |stream|
  {
    seq(|stream|, i requires 0 <= i < |stream| => FrameOf(stream[i], codec))
  }

  /** Frame `i` of a run asks for a key frame: the spike pending before it has settled with it. */
  predicate Asks(threshold: Uint16, holdoff: Byte, fs: seq<Frame>, i: nat)
    requires i < |fs|
  {
    && After(threshold, holdoff, fs[..i]).pending && !fs[i].idr
    && Small(fs[i], After(threshold, holdoff, fs[..i + 1]).ema)
  }

  /** One detector and the frames of a stream in turn. */
  method Watch(threshold: Uint16, holdoff: Byte, stream: seq<seq<Pack>>, codec: int) returns (asked: seq<bool>)
    requires forall i :: 0 <= i < |stream| ==> forall p :: p in stream[i] ==> PackOk(p)
    ensures |asked| == |stream|
    ensures forall i :: 0 <= i < |stream| ==>
      (asked[i] <==> Asks(threshold, holdoff, FramesOf(stream, codec), i))
  {
    hide Step, Run, Small;
    var detector := new Detector(threshold, holdoff);
    ghost var fs := FramesOf(stream, codec);
    asked := [];
    RunNone(Init(threshold, holdoff));
    assert fs[..0] == [];
    for i := 0 to |stream|
      invariant fresh(detector) && detector.State() == After(threshold, holdoff, fs[..i]) && |asked| == i
      invariant forall k :: 0 <= k < i ==> (asked[k] <==> Asks(threshold, holdoff, fs, k))
    {
      assert fs[..i + 1] == fs[..i] + [fs[i]] && fs[i] == FrameOf(stream[i], codec);
      RunLast(Init(threshold, holdoff), fs[..i], fs[i]);
      RequestedExactly(threshold, holdoff, fs[..i], fs[i]);
      var request := detector.Update(stream[i], codec);
      asked := asked + [request];
    }
  }
}
