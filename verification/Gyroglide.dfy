/** The crop controller of src/eis_gyroglide.c: the size of the window, and where each frame puts it. */
module Gyroglide {
  import opened Arith
  import opened Bytes
  import opened Timespec
  import opened GyroglideAxis
  import opened GyroLaws
  import opened GyroSim
  import MotionRing

  const MAX_MARGIN_PERCENT := 30
  const MIN_CROP_PERCENT := 70
  const MIN_SIZE := 64
  const BATCH_MAX := 64
  const UPDATE_MIN := 0.0001

  datatype EisConfig = EisConfig(
    marginPercent: int, captureW: Uint16, captureH: Uint16, pixelsPerRadian: real, testMode: bool, swapXY: bool,
    invertX: bool, invertY: bool, gain: real, deadbandRad: real, recenterRate: real, maxSlewPx: real, biasAlpha: real)

  /** One dimension of the window: its size, and the margin on either side. */
  datatype Extent = Extent(crop: nat, margin: nat)

  /** The sizes a capture of this size and a margin in percent lead to, before the smallest size is enforced. */
  function FirstExtent(capture: Uint16, percent: nat): Extent
    requires percent <= 30
  {
    var total := Even(capture * percent / 100);
    Extent(Even(capture - total), total / 2)
  }

  function MinCrop(capture: Uint16): (r: nat)
    ensures r % 2 == 0 && r >= MIN_SIZE && (capture >= MIN_SIZE ==> r <= capture)
  {
    var m := Even(capture * MIN_CROP_PERCENT / 100);
    if m < MIN_SIZE then MIN_SIZE else m
  }

  /** What fits a window in a capture: even, large enough, with equal margins that leave at most one pixel over. */
  predicate Fits(e: Extent, capture: Uint16)
  {
    && e.crop % 2 == 0 && MinCrop(capture) <= e.crop
    && e.crop + 2 * e.margin <= capture <= e.crop + 2 * e.margin + 1
  }

  /** Sizes the window, or refuses. The window is what the margin asked for leaves, or the smallest one allowed. */
  method Size(cfg: EisConfig) returns (ok: bool, x: Extent, y: Extent)
    ensures ok <==> 0 < cfg.marginPercent < 50 && cfg.captureW >= MIN_SIZE && cfg.captureH >= MIN_SIZE
    ensures ok ==> Fits(x, cfg.captureW) && Fits(y, cfg.captureH)
    ensures ok ==> x.crop == Max(MinCrop(cfg.captureW), FirstExtent(cfg.captureW, Percent(cfg)).crop)
    ensures ok ==> y.crop == Max(MinCrop(cfg.captureH), FirstExtent(cfg.captureH, Percent(cfg)).crop)
  {
    hide FirstExtent, MinCrop, Fits;
    ok, x, y := false, Extent(0, 0), Extent(0, 0);
    if cfg.marginPercent <= 0 || cfg.marginPercent >= 50 {
      return;
    }
    if cfg.captureW < MIN_SIZE || cfg.captureH < MIN_SIZE {
      return;
    }
    var marginPct := cfg.marginPercent;
    if marginPct > MAX_MARGIN_PERCENT {
      marginPct := MAX_MARGIN_PERCENT;
    }
    x, y := FirstExtent(cfg.captureW, marginPct), FirstExtent(cfg.captureH, marginPct);
    FirstFits(cfg.captureW, marginPct);
    FirstFits(cfg.captureH, marginPct);
    Refit(cfg.captureW, x);
    Refit(cfg.captureH, y);
    var minW, minH := MinCrop(cfg.captureW), MinCrop(cfg.captureH);
    if x.crop < minW || y.crop < minH {
      var cropW, cropH := if minW > x.crop then minW else x.crop, if minH > y.crop then minH else y.crop;
      x := Extent(cropW, (cfg.captureW - cropW) / 2);
      y := Extent(cropH, (cfg.captureH - cropH) / 2);
    }
    if x.crop < MIN_SIZE || y.crop < MIN_SIZE {
      return;
    }
    ok := true;
  }

  function Percent(cfg: EisConfig): (p: nat)
    ensures p <= MAX_MARGIN_PERCENT
  {
    if cfg.marginPercent <= 0 then 0
    else if cfg.marginPercent > MAX_MARGIN_PERCENT then MAX_MARGIN_PERCENT else cfg.marginPercent
  }

  /** A margin of at most 30 percent leaves 70 percent: only the smallest size may still be missed. */
  lemma FirstFits(capture: Uint16, percent: nat)
    requires percent <= MAX_MARGIN_PERCENT
    ensures 0 <= capture * percent / 100 <= capture * 30 / 100 <= capture
    ensures var e := FirstExtent(capture, percent);
      && e.crop % 2 == 0 && e.crop >= Even(capture * MIN_CROP_PERCENT / 100)
      && e.crop + 2 * e.margin <= capture <= e.crop + 2 * e.margin + 1
  {
    Scaled(capture, percent);
  }

  /** A window below the smallest size gets that size, and what margin is left. */
  lemma Refit(capture: Uint16, e: Extent)
    requires capture >= MIN_SIZE && e.crop % 2 == 0 && e.crop + 2 * e.margin <= capture <= e.crop + 2 * e.margin + 1
    ensures MinCrop(capture) <= e.crop ==> Fits(e, capture)
    ensures var crop := if MinCrop(capture) > e.crop then MinCrop(capture) else e.crop;
      crop <= capture && Fits(Extent(crop, (capture - crop) / 2), capture) && (capture - crop) / 2 <= e.margin
  {
    hide MinCrop;
  }

  lemma Scaled(capture: nat, percent: nat)
    requires percent <= 30
    ensures 0 <= capture * percent <= capture * 30
  {
  }

  /** Over reals, the seconds between two times are whole nanoseconds. */
  lemma WholeNanos(a: Timespec, b: Timespec)
    requires Seconds(a, b) > 0.0
    ensures DtNanos(Seconds(a, b)) == Nanos(b) - Nanos(a)
  {
    assert Seconds(a, b) * 1000000000.0 == (Nanos(b) - Nanos(a)) as real;
  }

  function XReadings(ss: seq<MotionRing.Sample>): (r: seq<Reading>)
    ensures |r| == |ss|
  {
    seq(|ss|, i requires 0 <= i < |ss| => Reading(ss[i].ts, ss[i].gyroX))
  }

  function YReadings(ss: seq<MotionRing.Sample>): (r: seq<Reading>)
    ensures |r| == |ss|
  {
    seq(|ss|, i requires 0 <= i < |ss| => Reading(ss[i].ts, ss[i].gyroY))
  }

  predicate OrDefault(v: real, asked: real, ok: bool, default: real) { v == if ok then asked else default }

  datatype Offsets = Offsets(posX: real, posY: real, biasX: real, biasY: real)

  class State {
    const captureW: Uint16
    const captureH: Uint16
    const x: Extent
    const y: Extent
    const pixelsPerRadian: real
    const gain: real
    const deadbandRad: real
    const recenterRate: real
    const maxSlewPx: real
    const biasAlpha: real
    const testMode: bool
    const swapXY: bool
    const invertX: bool
    const invertY: bool
    const ring: MotionRing.Ring
    var posX: real
    var posY: real
    var prevOutX: real
    var prevOutY: real
    var biasX: real
    var biasY: real
    var cropX: nat
    var cropY: nat
    var tPrev: Timespec
    var updateCount: Uint32
    var simTime: real
    var imuActive: bool

    /** The window lies inside the capture, and the offset within the margins. */
    ghost predicate Valid()
      reads this, ring, ring.buf
    {
      && ring.Valid() && Fits(x, captureW) && Fits(y, captureH)
      && pixelsPerRadian > 0.0 && gain > 0.0 && deadbandRad >= 0.0
      && recenterRate > 0.0 && maxSlewPx >= 0.0 && biasAlpha >= 0.0
      && prevOutX == posX && prevOutY == posY
      && Fabs(posX) <= x.margin as real && Fabs(posY) <= y.margin as real
      && cropX + x.crop <= captureW && cropY + y.crop <= captureH
    }

    /** The bias estimate, where the configuration keeps it bounded. */
    ghost predicate BiasOk()
      reads this
    {
      biasAlpha <= 1.0 ==> Fabs(biasX) <= BIAS_THRESH && Fabs(biasY) <= BIAS_THRESH
    }

    /** What is configured is as given where that makes sense, and a default otherwise. */
    ghost predicate Configured(cfg: EisConfig)
    {
      && testMode == cfg.testMode && swapXY == cfg.swapXY && invertX == cfg.invertX && invertY == cfg.invertY
      && OrDefault(pixelsPerRadian, cfg.pixelsPerRadian, cfg.pixelsPerRadian > 0.0, cfg.captureW as real / 2.0)
      && OrDefault(gain, cfg.gain, cfg.gain > 0.0, 1.0)
      && OrDefault(deadbandRad, cfg.deadbandRad, cfg.deadbandRad >= 0.0, 0.0)
      && OrDefault(recenterRate, cfg.recenterRate, cfg.recenterRate > 0.0, 0.5)
      && OrDefault(maxSlewPx, cfg.maxSlewPx, cfg.maxSlewPx >= 0.0, 0.0)
      && OrDefault(biasAlpha, cfg.biasAlpha, cfg.biasAlpha >= 0.0, 0.001)
    }

    constructor (cfg: EisConfig, x: Extent, y: Extent, now: Timespec)
      requires Fits(x, cfg.captureW) && Fits(y, cfg.captureH)
      ensures Valid() && BiasOk() && posX == 0.0 && posY == 0.0 && cropX == x.margin && cropY == y.margin
      ensures this.x == x && this.y == y && captureW == cfg.captureW && captureH == cfg.captureH
      ensures ring.history == [] && fresh(ring) && fresh(ring.buf) && !imuActive
      ensures Configured(cfg) && tPrev == now && updateCount == 0 && simTime == 0.0 && biasX == biasY == 0.0
    {
      captureW, captureH, this.x, this.y := cfg.captureW, cfg.captureH, x, y;
      pixelsPerRadian := if cfg.pixelsPerRadian > 0.0 then cfg.pixelsPerRadian else cfg.captureW as real / 2.0;
      gain := if cfg.gain > 0.0 then cfg.gain else 1.0;
      deadbandRad := if cfg.deadbandRad >= 0.0 then cfg.deadbandRad else 0.0;
      recenterRate := if cfg.recenterRate > 0.0 then cfg.recenterRate else 0.5;
      maxSlewPx := if cfg.maxSlewPx >= 0.0 then cfg.maxSlewPx else 0.0;
      biasAlpha := if cfg.biasAlpha >= 0.0 then cfg.biasAlpha else 0.001;
      testMode, swapXY, invertX, invertY := cfg.testMode, cfg.swapXY, cfg.invertX, cfg.invertY;
      posX, posY, prevOutX, prevOutY, biasX, biasY := 0.0, 0.0, 0.0, 0.0, 0.0, 0.0;
      cropX, cropY, tPrev, updateCount := x.margin, y.margin, now, 0;
      simTime, imuActive := 0.0, false;
      var r := new MotionRing.Ring();
      ring := r;
    }

    /** The angles a batch comes to: both axes in one loop. */
    method IntegrateBatch(now: Timespec, samples: seq<MotionRing.Sample>) returns (deltaX: real, deltaY: real)
      modifies this`biasX, this`biasY
      ensures biasX == Integrate(XReadings(samples), tPrev, old(biasX), biasAlpha).bias
      ensures biasY == Integrate(YReadings(samples), tPrev, old(biasY), biasAlpha).bias
      ensures deltaX == Angle(XReadings(samples), tPrev, now, old(biasX), biasAlpha, deadbandRad)
      ensures deltaY == Angle(YReadings(samples), tPrev, now, old(biasY), biasAlpha, deadbandRad)
    {
      hide AddTurn, NewBias, SampleTime, Seconds;
      deltaX, deltaY := 0.0, 0.0;
      ghost var rsX, rsY := XReadings(samples), YReadings(samples);
      var n, i := |samples|, 0;
      while i < n
        invariant 0 <= i <= n
        invariant Integrate(rsX[..i], tPrev, old(biasX), biasAlpha) == Turn(deltaX, biasX)
        invariant Integrate(rsY[..i], tPrev, old(biasY), biasAlpha) == Turn(deltaY, biasY)
      {
        var dt := SampleTime(if i == 0 then tPrev else samples[i - 1].ts, samples[i].ts);
        assert rsX[..i + 1][..i] == rsX[..i] && rsY[..i + 1][..i] == rsY[..i];
        deltaX := AddTurn(deltaX, samples[i].gyroX, biasX, dt);
        deltaY := AddTurn(deltaY, samples[i].gyroY, biasY, dt);
        biasX := NewBias(biasX, samples[i].gyroX, biasAlpha);
        biasY := NewBias(biasY, samples[i].gyroY, biasAlpha);
        i := i + 1;
      }
      assert rsX[..n] == rsX && rsY[..n] == rsY;
      if n > 0 {
        var dtTail := Seconds(samples[n - 1].ts, now);
        if dtTail > 0.0 && dtTail < TAIL_MAX {
          deltaX := AddTurn(deltaX, samples[n - 1].gyroX, biasX, dtTail);
          deltaY := AddTurn(deltaY, samples[n - 1].gyroY, biasY, dtTail);
        }
      }
      if Fabs(deltaX) < deadbandRad { deltaX := 0.0; }
      if Fabs(deltaY) < deadbandRad { deltaY := 0.0; }
    }

    /** One frame: the new offsets, each axis by itself but for the question whether the camera is still, and the crop
        coordinates they stand for. */
    method Compute(now: Timespec, samples: seq<MotionRing.Sample>) returns (outX: nat, outY: nat)
      requires Valid()
      modifies this`biasX, this`biasY, this`posX, this`posY, this`prevOutX, this`prevOutY
      ensures prevOutX == posX && prevOutY == posY
      ensures Offsets(posX, posY, biasX, biasY) == After(old(Offsets(posX, posY, biasX, biasY)), samples, tPrev, now)
      ensures outX == CropAt(posX, x.margin, captureW - x.crop) && outY == CropAt(posY, y.margin, captureH - y.crop)
    {
      hide Integrate, Angle, Recenter, Edge, Slew, Shift, Idle, CropAt;
      var frameDt := FrameTime(tPrev, now);
      var deltaX, deltaY := IntegrateBatch(now, samples);
      var idle := Idle(deltaX, deltaY);
      posX := Recenter(posX + Shift(deltaX), idle, recenterRate, frameDt);
      posY := Recenter(posY + Shift(deltaY), idle, recenterRate, frameDt);
      posX := Edge(posX, x.margin, frameDt);
      posY := Edge(posY, y.margin, frameDt);
      posX := Slew(posX, prevOutX, maxSlewPx);
      posY := Slew(posY, prevOutY, maxSlewPx);
      posX := Clamp(posX, -(x.margin as real), x.margin as real);
      posY := Clamp(posY, -(y.margin as real), y.margin as real);
      prevOutX, prevOutY := posX, posY;
      outX, outY := CropAt(posX, x.margin, captureW - x.crop), CropAt(posY, y.margin, captureH - y.crop);
    }

    /** The offsets and biases a batch of samples leads to: each axis by itself, but for the question whether the camera
        is still. */
    function After(o: Offsets, samples: seq<MotionRing.Sample>, tPrev: Timespec, now: Timespec): Offsets
    {
      var dx := Angle(XReadings(samples), tPrev, now, o.biasX, biasAlpha, deadbandRad);
      var dy := Angle(YReadings(samples), tPrev, now, o.biasY, biasAlpha, deadbandRad);
      var idle, dt := Idle(dx, dy), FrameTime(tPrev, now);
      Offsets(NewPos(o.posX, o.posX, Shift(dx), idle, recenterRate, dt, x.margin, maxSlewPx),
              NewPos(o.posY, o.posY, Shift(dy), idle, recenterRate, dt, y.margin, maxSlewPx),
              Integrate(XReadings(samples), tPrev, o.biasX, biasAlpha).bias,
              Integrate(YReadings(samples), tPrev, o.biasY, biasAlpha).bias)
    }

    /** The samples a frame looks at: the oldest of those since the frame before that the ring still holds. */
    static function Batch(history: seq<MotionRing.Sample>, tPrev: Timespec, now: Timespec): seq<MotionRing.Sample>
    {
      var selected := MotionRing.Select(MotionRing.Recent(history), tPrev, now);
      selected[..Min(BATCH_MAX, |selected|)]
    }

    /** The samples a frame adds to the ring itself: simulated ones, if no sensor is active. */
    function Added(now: Timespec, waves: Waves): seq<MotionRing.Sample>
      reads this`imuActive, this`tPrev, this`simTime
    {
      var dt := Seconds(tPrev, now);
      if imuActive || dt < UPDATE_MIN then []
      else Simulated(tPrev, dt, simTime, waves, SampleCount(dt), SampleCount(dt))
    }

    /** Without a sensor, a frame never lacks samples: the simulated ones spread over all the time since the frame
        before, and the last one is at its end. */
    lemma NeverStarved(now: Timespec, waves: Waves)
      requires !imuActive && Normal(tPrev) && Normal(now) && Seconds(tPrev, now) >= UPDATE_MIN
      ensures var ss := Added(now, waves);
        && ss != [] && ss[|ss| - 1].ts == now
        && (forall i :: 0 <= i < |ss| ==> MotionRing.Within(ss[i], tPrev, now))
        && (forall i :: 0 <= i < |ss| - 1 ==> MotionRing.TsGe(ss[i + 1].ts, ss[i].ts))
      ensures Batch(ring.history + Added(now, waves), tPrev, now) != []
    {
      hide Simulated, Interpolate, MotionRing.Within, MotionRing.TsGe, Seconds;
      var dt := Seconds(tPrev, now);
      WholeNanos(tPrev, now);
      SimulatedSpread(tPrev, now, dt, simTime, waves, SampleCount(dt));
      var recent := MotionRing.Recent(ring.history + Added(now, waves));
      assert recent[|recent| - 1] == Added(now, waves)[SampleCount(dt) - 1];
      assert MotionRing.Within(recent[|recent| - 1], tPrev, now);
    }

    /** `sim_generate_samples`. */
    method Simulate(now: Timespec, dt: real, waves: Waves)
      requires Valid() && !imuActive && dt == Seconds(tPrev, now) >= UPDATE_MIN
      modifies this`simTime, ring, ring.buf
      ensures Valid() && ring.history == old(ring.history) + old(Added(now, waves))
      ensures simTime == old(simTime) + dt
    {
      hide Interpolate, Seconds, Fits, DtNanos;
      var n := (dt * SAMPLE_RATE as real).Floor;
      if n < 1 { n := 1; }
      if n > MotionRing.CAPACITY { n := MotionRing.CAPACITY; }
      assert n == SampleCount(dt);
      var step, t, dtNs := dt / n as real, simTime, DtNanos(dt);
      var i := 0;
      while i < n
        invariant 0 <= i <= n && ring.Valid() && simTime == old(simTime) && t == SimTime(simTime, step, i)
        invariant ring.history == old(ring.history) + Simulated(tPrev, dt, simTime, waves, n, i)
      {
        t := t + step;
        ring.Push(MotionRing.Sample(Interpolate(tPrev, dtNs, i, n), waves.x(t), waves.y(t), 0.0));
        i := i + 1;
      }
      SimTimeWhole(simTime, dt, n);
      simTime := t;
    }

    method SetImuActive(active: bool)
      modifies this`imuActive
      ensures imuActive == active
    {
      imuActive := active;
    }

    function AxisX(): Setup { Setup(pixelsPerRadian, gain, deadbandRad, biasAlpha, x.margin, maxSlewPx) }

    function AxisY(): Setup { Setup(pixelsPerRadian, gain, deadbandRad, biasAlpha, y.margin, maxSlewPx) }

    function Shift(delta: real): real { delta * pixelsPerRadian * gain }

    predicate Idle(deltaX: real, deltaY: real) { (Fabs(deltaX) + Fabs(deltaY)) * pixelsPerRadian < IDLE_PX }

    static function FrameTime(a: Timespec, b: Timespec): (dt: real)
      ensures dt >= DT_MIN
    {
      if Seconds(a, b) < DT_MIN then DT_MIN else Seconds(a, b)
    }

    /** One video frame at time `now`; in test mode the crop follows the given wobble. Afterwards the window is inside
        the capture and even-aligned, the offset has stayed within the margins and moved no further than the slew
        limit, and the crop with it, whether or not the driver accepts it; that is reported only. */
    method Update(now: Timespec, waves: Waves, wobbleX: real, wobbleY: real, accepted: bool)
      returns (moved: bool, ok: bool)
      requires Valid()
      modifies this, ring, ring.buf
      ensures ok <==> !moved || accepted
      ensures Valid() && (old(BiasOk()) ==> BiasOk()) && imuActive == old(imuActive)
      ensures moved <==> Seconds(old(tPrev), now) >= UPDATE_MIN
      ensures !moved ==> cropX == old(cropX) && cropY == old(cropY) && posX == old(posX) && posY == old(posY)
      ensures !moved ==> tPrev == old(tPrev) && biasX == old(biasX) && biasY == old(biasY)
      ensures !moved ==> updateCount == old(updateCount)
      ensures ring.history == old(ring.history) + old(Added(now, waves))
      ensures simTime == old(simTime) + if moved && !imuActive then Seconds(old(tPrev), now) else 0.0
      ensures moved ==> updateCount == (old(updateCount) + 1) % 0x1_0000_0000
      ensures moved ==> cropX % 2 == 0 && cropY % 2 == 0 && tPrev == now
      ensures moved && testMode ==> posX == old(posX) && posY == old(posY) && biasX == old(biasX) && biasY == old(biasY)
      ensures moved && testMode ==>
        cropX == CropAt(wobbleX, x.margin, captureW - x.crop) && cropY == CropAt(wobbleY, y.margin, captureH - y.crop)
      ensures moved && !testMode ==>
        cropX == Even(x.margin + Trunc(posX)) && cropY == Even(y.margin + Trunc(posY))
      ensures maxSlewPx > 0.0 ==> Fabs(posX - old(posX)) <= maxSlewPx && Fabs(posY - old(posY)) <= maxSlewPx
      ensures moved && !testMode ==>
        Offsets(posX, posY, biasX, biasY)
        == After(old(Offsets(posX, posY, biasX, biasY)), Batch(ring.history, old(tPrev), now), old(tPrev), now)
      ensures moved && !testMode && Batch(ring.history, old(tPrev), now) == [] ==>
        Closer(posX, old(posX)) && Closer(posY, old(posY))
      ensures moved && !testMode ==>
        var batch := Batch(ring.history, old(tPrev), now);
        && Follows(AxisX(), XReadings(batch), old(tPrev), now, old(biasX), old(posX), posX)
        && Follows(AxisY(), YReadings(batch), old(tPrev), now, old(biasY), old(posY), posY)
    {
      hide CropAt, Seconds, After, Batch, Closer, Simulated, Fits, MotionRing.Ring.Valid, Follows, XReadings, YReadings,
           AxisX, AxisY;
      moved, ok := true, accepted;
      var frameDt := Seconds(tPrev, now);
      if frameDt < UPDATE_MIN {
        assert Added(now, waves) == [];
        return false, true;
      }
      if !imuActive {
        Simulate(now, frameDt, waves);
      }
      if testMode {
        Wobble(wobbleX, wobbleY);
      } else {
        Track(now);
      }
      tPrev := now;
      updateCount := (updateCount + 1) % 0x1_0000_0000;
    }

    /** A frame in test mode. */
    method Wobble(wobbleX: real, wobbleY: real)
      requires Valid()
      modifies this`cropX, this`cropY
      ensures Valid() && (old(BiasOk()) ==> BiasOk()) && cropX % 2 == 0 && cropY % 2 == 0
      ensures cropX == CropAt(wobbleX, x.margin, captureW - x.crop)
      ensures cropY == CropAt(wobbleY, y.margin, captureH - y.crop)
    {
      hide Fits;
      cropX := CropAt(wobbleX, x.margin, captureW - x.crop);
      cropY := CropAt(wobbleY, y.margin, captureH - y.crop);
    }

    /** A frame of the controller proper: the samples since the frame before move the window. */
    method Track(now: Timespec)
      requires Valid()
      modifies this`biasX, this`biasY, this`posX, this`posY, this`prevOutX, this`prevOutY, this`cropX, this`cropY
      ensures Valid() && (old(BiasOk()) ==> BiasOk())
      ensures cropX == Even(x.margin + Trunc(posX)) && cropY == Even(y.margin + Trunc(posY))
      ensures maxSlewPx > 0.0 ==> Fabs(posX - old(posX)) <= maxSlewPx && Fabs(posY - old(posY)) <= maxSlewPx
      ensures Offsets(posX, posY, biasX, biasY)
           == After(old(Offsets(posX, posY, biasX, biasY)), Batch(ring.history, tPrev, now), tPrev, now)
      ensures Batch(ring.history, tPrev, now) == [] ==> Closer(posX, old(posX)) && Closer(posY, old(posY))
      ensures Follows(AxisX(), XReadings(Batch(ring.history, tPrev, now)), tPrev, now, old(biasX), old(posX), posX)
      ensures Follows(AxisY(), YReadings(Batch(ring.history, tPrev, now)), tPrev, now, old(biasY), old(posY), posY)
    {
      hide After, XReadings, YReadings, CropAt, Seconds, MotionRing.Select, Closer, Follows, Trunc, AxisX, AxisY;
      var batch := new MotionRing.Sample[BATCH_MAX](_ => MotionRing.Sample(Timespec(0, 0), 0.0, 0.0, 0.0));
      var n := ring.ReadRange(tPrev, now, batch, BATCH_MAX);
      var samples := batch[..n];
      ghost var o := Offsets(posX, posY, biasX, biasY);
      AfterBounds(o, samples, tPrev, now);
      AfterBias(o, samples, tPrev, now);
      AfterStill(o, samples, tPrev, now);
      AfterFollows(o, samples, tPrev, now);
      var newX, newY := Compute(now, samples);
      CropExact(posX, x.margin, captureW - x.crop);
      CropExact(posY, y.margin, captureH - y.crop);
      cropX, cropY := newX, newY;
    }

    /** Each axis follows its rotation. */
    lemma AfterFollows(o: Offsets, samples: seq<MotionRing.Sample>, tPrev: Timespec, now: Timespec)
      requires pixelsPerRadian > 0.0 && gain > 0.0
      ensures var o' := After(o, samples, tPrev, now);
        && Follows(AxisX(), XReadings(samples), tPrev, now, o.biasX, o.posX, o'.posX)
        && Follows(AxisY(), YReadings(samples), tPrev, now, o.biasY, o.posY, o'.posY)
    {
      hide Angle, Integrate, NewPos, Follows, FrameTime, Shift, Shifted, Idle, XReadings, YReadings;
      var rsX, rsY := XReadings(samples), YReadings(samples);
      var dx := Angle(rsX, tPrev, now, o.biasX, biasAlpha, deadbandRad);
      var dy := Angle(rsY, tPrev, now, o.biasY, biasAlpha, deadbandRad);
      var idle, dt, o' := Idle(dx, dy), FrameTime(tPrev, now), After(o, samples, tPrev, now);
      IdleNot(dx, dy);
      FollowsRotation(AxisX(), rsX, tPrev, now, o.biasX, o.posX, o'.posX, idle, recenterRate, dt);
      FollowsRotation(AxisY(), rsY, tPrev, now, o.biasY, o.posY, o'.posY, idle, recenterRate, dt);
    }

    lemma AfterBounds(o: Offsets, samples: seq<MotionRing.Sample>, tPrev: Timespec, now: Timespec)
      requires Fabs(o.posX) <= x.margin as real && Fabs(o.posY) <= y.margin as real
      ensures var o' := After(o, samples, tPrev, now);
        && Fabs(o'.posX) <= x.margin as real && Fabs(o'.posY) <= y.margin as real
        && (maxSlewPx > 0.0 ==> Fabs(o'.posX - o.posX) <= maxSlewPx && Fabs(o'.posY - o.posY) <= maxSlewPx)
    {
      hide Angle, Integrate, NewPos, FrameTime, Shift, Idle, XReadings, YReadings;
      var dx := Angle(XReadings(samples), tPrev, now, o.biasX, biasAlpha, deadbandRad);
      var dy := Angle(YReadings(samples), tPrev, now, o.biasY, biasAlpha, deadbandRad);
      var idle, dt := Idle(dx, dy), FrameTime(tPrev, now);
      NewPosBounds(o.posX, o.posX, Shift(dx), idle, recenterRate, dt, x.margin, maxSlewPx);
      NewPosBounds(o.posY, o.posY, Shift(dy), idle, recenterRate, dt, y.margin, maxSlewPx);
    }

    lemma AfterBias(o: Offsets, samples: seq<MotionRing.Sample>, tPrev: Timespec, now: Timespec)
      ensures 0.0 <= biasAlpha <= 1.0 && Fabs(o.biasX) <= BIAS_THRESH && Fabs(o.biasY) <= BIAS_THRESH ==>
        var o' := After(o, samples, tPrev, now); Fabs(o'.biasX) <= BIAS_THRESH && Fabs(o'.biasY) <= BIAS_THRESH
    {
      hide Angle, Integrate, NewPos, FrameTime, Shift, Idle, XReadings, YReadings;
      if 0.0 <= biasAlpha <= 1.0 && Fabs(o.biasX) <= BIAS_THRESH && Fabs(o.biasY) <= BIAS_THRESH {
        IntegrateBias(XReadings(samples), tPrev, o.biasX, biasAlpha);
        IntegrateBias(YReadings(samples), tPrev, o.biasY, biasAlpha);
      }
    }

    /** Without samples. */
    lemma AfterStill(o: Offsets, samples: seq<MotionRing.Sample>, tPrev: Timespec, now: Timespec)
      requires Fabs(o.posX) <= x.margin as real && Fabs(o.posY) <= y.margin as real && recenterRate > 0.0
      ensures samples == [] ==>
        var o' := After(o, samples, tPrev, now); Closer(o'.posX, o.posX) && Closer(o'.posY, o.posY)
    {
      hide Angle, Integrate, NewPos, Shift, Idle, Closer;
      if samples == [] {
        var dt := FrameTime(tPrev, now);
        NoAngle(XReadings(samples), tPrev, now, o.biasX, biasAlpha, deadbandRad);
        NoAngle(YReadings(samples), tPrev, now, o.biasY, biasAlpha, deadbandRad);
        NoShift();
        Still(o.posX, recenterRate, dt, x.margin, maxSlewPx);
        Still(o.posY, recenterRate, dt, y.margin, maxSlewPx);
      }
    }

    /** Exactly, away from the last fifth of the margins and without a slew limit: by the rate and the time, which is at
        least a millisecond. */
    lemma AfterRecentred(o: Offsets, tPrev: Timespec, now: Timespec)
      requires 5.0 * Fabs(o.posX) <= 4.0 * x.margin as real && 5.0 * Fabs(o.posY) <= 4.0 * y.margin as real
      requires recenterRate > 0.0 && maxSlewPx == 0.0
      ensures var o' := After(o, [], tPrev, now);
        var part := recenterRate * if Seconds(tPrev, now) < 0.001 then 0.001 else Seconds(tPrev, now);
        && o'.posX == (if part >= 1.0 then 0.0 else o.posX - o.posX * part)
        && o'.posY == (if part >= 1.0 then 0.0 else o.posY - o.posY * part)
    {
      hide Angle, Integrate, NewPos, Shift, Idle;
      var dt := FrameTime(tPrev, now);
      NoAngle(XReadings([]), tPrev, now, o.biasX, biasAlpha, deadbandRad);
      NoAngle(YReadings([]), tPrev, now, o.biasY, biasAlpha, deadbandRad);
      NoShift();
      NewPosStill(o.posX, recenterRate, dt, x.margin);
      NewPosStill(o.posY, recenterRate, dt, y.margin);
    }

    /** A frame that turns either axis far enough is not still. */
    lemma IdleNot(dx: real, dy: real)
      requires pixelsPerRadian > 0.0
      ensures Fabs(dx) * pixelsPerRadian >= 0.5 || Fabs(dy) * pixelsPerRadian >= 0.5 ==> !Idle(dx, dy)
      ensures Shift(dx) == Shifted(dx, pixelsPerRadian, gain) && Shift(dy) == Shifted(dy, pixelsPerRadian, gain)
    {
      if Fabs(dx) * pixelsPerRadian >= 0.5 {
        NotIdle(dx, dy, pixelsPerRadian);
      }
      if Fabs(dy) * pixelsPerRadian >= 0.5 {
        NotIdle(dy, dx, pixelsPerRadian);
      }
    }

    lemma NoShift()
      ensures Shift(0.0) == 0.0 && Idle(0.0, 0.0)
    {
    }

    /** A gyro sample, with its axes as they are mounted. */
    method PushSample(gx: real, gy: real, gz: real, ts: Timespec)
      requires Valid()
      modifies ring, ring.buf
      ensures Valid()
      ensures var sx, sy := if swapXY then gy else gx, if swapXY then gx else gy;
        ring.history
        == old(ring.history) + [MotionRing.Sample(ts, if invertX then -sx else sx, if invertY then -sy else sy, gz)]
    {
      var sx, sy := gx, gy;
      if swapXY {
        sx, sy := sy, sx;
      }
      if invertX { sx := -sx; }
      if invertY { sy := -sy; }
      ring.Push(MotionRing.Sample(ts, sx, sy, gz));
    }
  }

  /** Twice the margin in percent, and no window below the smallest size: the first coordinate, on either axis. */
  function FirstCrop(capture: Uint16, percent: nat): nat
    requires capture >= MIN_SIZE
  {
    Min(capture * percent / 200, (capture - MIN_SIZE) / 2)
  }

  lemma FirstCropIs(capture: Uint16, percent: nat, e: Extent)
    requires capture >= MIN_SIZE && percent <= MAX_MARGIN_PERCENT && Fits(e, capture)
    requires e.crop == Max(MinCrop(capture), FirstExtent(capture, percent).crop)
    ensures e.margin == FirstCrop(capture, percent)
  {
    FirstFits(capture, percent);
    Halved(capture * percent);
  }

  lemma Halved(n: nat)
    ensures n / 100 / 2 == n / 200 && Even(n / 100) / 2 == n / 200
  {
  }

  /** The window a margin in percent leads to. */
  predicate Window(e: Extent, capture: Uint16, percent: nat)
    requires percent <= MAX_MARGIN_PERCENT
  {
    Fits(e, capture) && e.crop == Max(MinCrop(capture), FirstExtent(capture, percent).crop)
  }

  /** A controller for an acceptable configuration, if the driver accepts the first window. That window is even just
      when `FirstCrop` is on either axis; every later one is. */
  method Create(cfg: EisConfig, now: Timespec, accepted: bool) returns (st: State?)
    ensures st != null <==>
      accepted && 0 < cfg.marginPercent < 50 && cfg.captureW >= MIN_SIZE && cfg.captureH >= MIN_SIZE
    ensures st != null ==> fresh(st) && st.Valid() && st.BiasOk()
    ensures st != null ==> st.captureW == cfg.captureW && st.captureH == cfg.captureH && st.Configured(cfg)
    ensures st != null ==> Window(st.x, cfg.captureW, Percent(cfg)) && Window(st.y, cfg.captureH, Percent(cfg))
    ensures st != null ==> st.posX == st.posY == st.biasX == st.biasY == 0.0 && st.tPrev == now && !st.imuActive
    ensures st != null ==>
      st.cropX == FirstCrop(cfg.captureW, Percent(cfg)) && st.cropY == FirstCrop(cfg.captureH, Percent(cfg))
  {
    hide FirstExtent, MinCrop, Fits, FirstCrop;
    var ok, x, y := Size(cfg);
    if !ok {
      return null;
    }
    FirstCropIs(cfg.captureW, Percent(cfg), x);
    FirstCropIs(cfg.captureH, Percent(cfg), y);
    st := new State(cfg, x, y, now);
    if !accepted {
      return null;
    }
  }

  /** A tenth of 100 pixels leaves a margin of five: an odd first window. */
  method OddFirstWindow(now: Timespec) returns (st: State?)
    ensures st != null && st.captureW == st.captureH == 100 && st.cropX % 2 == st.cropY % 2 == 1
  {
    st := Create(EisConfig(10, 100, 100, 0.0, false, false, false, false, 0.0, 0.0, 0.0, 0.0, 0.0), now, true);
  }
}
