/** What a rotation does to one axis of the crop controller of src/eis_gyroglide.c: the angle its readings come to, the
    bias they leave, and where the offset goes. */
module GyroLaws {
  import opened Arith
  import opened Timespec
  import opened GyroglideAxis

  // ---- the angle ----

  /** Seconds are the nanoseconds between two instants. */
  lemma SecondsMeans(a: Timespec, b: Timespec)
    ensures Seconds(a, b) * 1000000000.0 == (Nanos(b) - Nanos(a)) as real
  {
  }

  lemma SecondsAdd(a: Timespec, b: Timespec, c: Timespec)
    ensures Seconds(a, b) + Seconds(b, c) == Seconds(a, c)
  {
  }

  /** What a rate comes to over a time. */
  function Swept(rate: real, t: real): real { rate * t }

  lemma SweptAdd(rate: real, s: real, t: real)
    ensures Swept(rate, s + t) == Swept(rate, s) + Swept(rate, t)
  {
  }

  lemma SweptLess(a: real, b: real, t: real)
    ensures Swept(a - b, t) == Swept(a, t) - Swept(b, t)
  {
  }

  lemma AddTurnIs(delta: real, gyro: real, bias: real, dt: real)
    ensures AddTurn(delta, gyro, bias, dt) == delta + Swept(gyro, dt) - Swept(bias, dt)
  {
    SweptLess(gyro, bias, dt);
  }

  /** The time before reading `i`. */
  function Before(rs: seq<Reading>, tPrev: Timespec, i: nat): Timespec
    requires i < |rs|
  {
    if i == 0 then tPrev else rs[i - 1].ts
  }

  /** The readings come in order, at most 50 ms apart. */
  predicate Close(rs: seq<Reading>, tPrev: Timespec)
  {
    forall i :: 0 <= i < |rs| ==> 0.0 <= Seconds(Before(rs, tPrev, i), rs[i].ts) <= 0.05
  }

  /** They do, and the last one is less than 20 ms old. */
  predicate Dense(rs: seq<Reading>, tPrev: Timespec, now: Timespec)
  {
    rs != [] && Close(rs, tPrev) && 0.0 <= Seconds(rs[|rs| - 1].ts, now) < 0.02
  }

  /** No reading adapts the bias. */
  predicate BiasFixed(rs: seq<Reading>, alpha: real)
  {
    alpha == 0.0 || forall i :: 0 <= i < |rs| ==> Fabs(rs[i].gyro) >= 0.05
  }

  /** The axis points at `at[0]` at the frame before, at `at[i + 1]` at reading `i`, and at the last one now: it
      turns by what each reading says over the time up to it, and on as the last one says. */
  predicate TurnsAs(rs: seq<Reading>, tPrev: Timespec, now: Timespec, at: seq<real>)
  {
    && rs != [] && |at| == |rs| + 2 && TurnsUpTo(rs, tPrev, at)
    && at[|rs| + 1] - at[|rs|] == Swept(rs[|rs| - 1].gyro, Seconds(rs[|rs| - 1].ts, now))
  }

  predicate TurnsUpTo(rs: seq<Reading>, tPrev: Timespec, at: seq<real>)
    requires |at| >= |rs| + 1
  {
    forall i :: 0 <= i < |rs| ==> at[i + 1] - at[i] == Swept(rs[i].gyro, Seconds(Before(rs, tPrev, i), rs[i].ts))
  }

  /** The angle of a frame is the rotation since the frame before, less what the bias comes to over that time. */
  lemma AngleTurned(rs: seq<Reading>, tPrev: Timespec, now: Timespec, bias: real, alpha: real, at: seq<real>)
    requires Dense(rs, tPrev, now) && BiasFixed(rs, alpha) && TurnsAs(rs, tPrev, now, at)
    ensures Angle(rs, tPrev, now, bias, alpha, 0.0) == at[|rs| + 1] - at[0] - Swept(bias, Seconds(tPrev, now))
  {
    hide Seconds, Integrate, AddTurn, Swept;
    Turned(rs, tPrev, bias, alpha, at);
    var last := rs[|rs| - 1];
    var dt := Seconds(last.ts, now);
    SweptFrom(bias, tPrev, last.ts, now);
    AddTurnIs(at[|rs|] - at[0] - Swept(bias, Seconds(tPrev, last.ts)), last.gyro, bias, dt);
    if dt == 0.0 {
      SweptAdd(last.gyro, dt, dt);
      SweptAdd(bias, dt, dt);
    }
  }

  lemma {:induction false} Turned(rs: seq<Reading>, tPrev: Timespec, bias: real, alpha: real, at: seq<real>)
    requires rs != [] && BiasFixed(rs, alpha) && Close(rs, tPrev) && |at| >= |rs| + 1 && TurnsUpTo(rs, tPrev, at)
    ensures Integrate(rs, tPrev, bias, alpha)
         == Turn(at[|rs|] - at[0] - Swept(bias, Seconds(tPrev, rs[|rs| - 1].ts)), bias)
  {
    hide Seconds, Swept, AddTurn, NewBias, Integrate, SampleTime, Close, BiasFixed, TurnsUpTo;
    var k := |rs| - 1;
    var before, r, t := rs[..k], rs[k], Before(rs, tPrev, k);
    IntegrateLast(rs, tPrev, bias, alpha);
    LastReading(rs, tPrev, bias, alpha, at);
    AddTurnIs(Integrate(before, tPrev, bias, alpha).delta, r.gyro, bias, Seconds(t, r.ts));
    if k > 0 {
      Turned(before, tPrev, bias, alpha, at);
      SweptFrom(bias, tPrev, t, r.ts);
    }
  }

  lemma LastReading(rs: seq<Reading>, tPrev: Timespec, bias: real, alpha: real, at: seq<real>)
    requires rs != [] && BiasFixed(rs, alpha) && Close(rs, tPrev) && |at| >= |rs| + 1 && TurnsUpTo(rs, tPrev, at)
    ensures var k := |rs| - 1;
      var before, r, t := rs[..k], rs[k], Before(rs, tPrev, k);
      && BiasFixed(before, alpha) && Close(before, tPrev) && TurnsUpTo(before, tPrev, at)
      && SampleTime(t, r.ts) == Seconds(t, r.ts) && at[k + 1] - at[k] == Swept(r.gyro, Seconds(t, r.ts))
      && NewBias(bias, r.gyro, alpha) == bias
  {
    hide Seconds, Swept, NewBias, SampleTime;
    var k := |rs| - 1;
    var before := rs[..k];
    Keeps(bias, rs[k].gyro, alpha);
    SampleTimeIs(Before(rs, tPrev, k), rs[k].ts);
    assert forall i :: 0 <= i < k ==> before[i] == rs[i] && Before(before, tPrev, i) == Before(rs, tPrev, i);
  }

  lemma IntegrateLast(rs: seq<Reading>, tPrev: Timespec, bias: real, alpha: real)
    requires rs != []
    ensures var k := |rs| - 1;
      var before := Integrate(rs[..k], tPrev, bias, alpha);
      && Integrate(rs, tPrev, bias, alpha)
         == Turn(AddTurn(before.delta, rs[k].gyro, before.bias, SampleTime(Before(rs, tPrev, k), rs[k].ts)),
                 NewBias(before.bias, rs[k].gyro, alpha))
      && (k == 0 ==> before == Turn(0.0, bias))
  {
    hide AddTurn, SampleTime, NewBias;
  }

  lemma SampleTimeIs(t: Timespec, ts: Timespec)
    requires 0.0 <= Seconds(t, ts) <= 0.05
    ensures SampleTime(t, ts) == Seconds(t, ts)
  {
  }

  lemma Keeps(bias: real, gyro: real, alpha: real)
    requires alpha == 0.0 || Fabs(gyro) >= 0.05
    ensures NewBias(bias, gyro, alpha) == bias
  {
  }

  /** All readings are the same. */
  predicate Steady(rs: seq<Reading>, g: real) { forall i :: 0 <= i < |rs| ==> rs[i].gyro == g }

  /** A steady rotation turns by its rate, less the bias, times the time. */
  lemma AngleSteady(rs: seq<Reading>, tPrev: Timespec, now: Timespec, bias: real, alpha: real, g: real)
    requires Dense(rs, tPrev, now) && BiasFixed(rs, alpha) && Steady(rs, g)
    ensures Angle(rs, tPrev, now, bias, alpha, 0.0) == (g - bias) * Seconds(tPrev, now)
  {
    hide Angle, Seconds, Swept, Close, BiasFixed, TurnsAs, Steady;
    var at := SteadyAt(rs, tPrev, now, g);
    SteadyTurns(rs, tPrev, now, g);
    AngleTurned(rs, tPrev, now, bias, alpha, at);
    SweptFrom(g, tPrev, tPrev, now);
    SweptLess(g, bias, Seconds(tPrev, now));
    SweptIs(g - bias, Seconds(tPrev, now));
  }

  function SteadyAt(rs: seq<Reading>, tPrev: Timespec, now: Timespec, g: real): (at: seq<real>)
    ensures |at| == |rs| + 2
  {
    seq(|rs| + 2, i requires 0 <= i < |rs| + 2 =>
      Swept(g, Seconds(tPrev, if i == 0 then tPrev else if i <= |rs| then rs[i - 1].ts else now)))
  }

  lemma SteadyTurns(rs: seq<Reading>, tPrev: Timespec, now: Timespec, g: real)
    requires rs != [] && Steady(rs, g)
    ensures TurnsAs(rs, tPrev, now, SteadyAt(rs, tPrev, now, g))
  {
    hide Seconds, Swept;
    var at := SteadyAt(rs, tPrev, now, g);
    forall i | 0 <= i < |rs| ensures at[i + 1] - at[i] == Swept(rs[i].gyro, Seconds(Before(rs, tPrev, i), rs[i].ts)) {
      SweptFrom(g, tPrev, Before(rs, tPrev, i), rs[i].ts);
    }
    SweptFrom(g, tPrev, rs[|rs| - 1].ts, now);
  }

  lemma SweptFrom(g: real, a: Timespec, b: Timespec, c: Timespec)
    ensures Swept(g, Seconds(a, c)) - Swept(g, Seconds(a, b)) == Swept(g, Seconds(b, c))
  {
    SecondsAdd(a, b, c);
    SweptAdd(g, Seconds(a, b), Seconds(b, c));
  }

  lemma SweptIs(rate: real, t: real)
    ensures Swept(rate, t) == rate * t
  {
  }

  /** A reading that comes late counts for 50 ms, one from before the frame for nothing. */
  lemma AngleGap(r: Reading, tPrev: Timespec, bias: real, alpha: real)
    ensures Seconds(tPrev, r.ts) >= 0.05 ==> Angle([r], tPrev, r.ts, bias, alpha, 0.0) == (r.gyro - bias) * 0.05
    ensures Seconds(tPrev, r.ts) <= 0.0 ==> Angle([r], tPrev, r.ts, bias, alpha, 0.0) == 0.0
  {
    assert [r][..0] == [];
    assert Integrate([], tPrev, bias, alpha) == Turn(0.0, bias);
  }

  /** With a deadband, an angle below it counts as none, and any other one as it is. */
  lemma AngleBand(rs: seq<Reading>, tPrev: Timespec, now: Timespec, bias: real, alpha: real, band: real)
    ensures var a := Angle(rs, tPrev, now, bias, alpha, 0.0);
      Angle(rs, tPrev, now, bias, alpha, band) == if -band < a < band then 0.0 else a
  {
    hide WithTail, Integrate;
  }

  // ---- the bias ----

  function Pow(x: real, n: nat): real { if n == 0 then 1.0 else Pow(x, n - 1) * x }

  /** Small steady readings draw the bias towards them, each by the adaption factor of what is missing. */
  lemma {:induction false} BiasLearns(rs: seq<Reading>, tPrev: Timespec, bias: real, alpha: real, g: real)
    requires Steady(rs, g) && Fabs(g) < 0.05
    ensures g - Integrate(rs, tPrev, bias, alpha).bias == (g - bias) * Pow(1.0 - alpha, |rs|)
  {
    hide AddTurn, SampleTime, NewBias;
    if rs == [] {
      assert Pow(1.0 - alpha, 0) == 1.0;
    } else {
      var before := rs[..|rs| - 1];
      BiasLearns(before, tPrev, bias, alpha, g);
      Learnt(Integrate(before, tPrev, bias, alpha).bias, g, alpha, g - bias, Pow(1.0 - alpha, |before|));
    }
  }

  lemma Learnt(bias: real, g: real, alpha: real, d: real, p: real)
    requires Fabs(g) < 0.05 && g - bias == d * p
    ensures g - NewBias(bias, g, alpha) == d * (p * (1.0 - alpha))
  {
    var e := g - bias;
    assert g - NewBias(bias, g, alpha) == e - alpha * e;
    assert e - alpha * e == e * (1.0 - alpha);
    assert d * p * (1.0 - alpha) == d * (p * (1.0 - alpha));
  }

  // ---- the offset ----

  /** Away from the margin's last fifth, an offset on the move is shifted as it is, up to the slew limit. */
  lemma NewPosFree(pos: real, shift: real, rate: real, dt: real, margin: nat, slew: real)
    requires 5.0 * Fabs(pos + shift) <= 4.0 * margin as real
    ensures var p := NewPos(pos, pos, shift, false, rate, dt, margin, slew);
      && (slew <= 0.0 || Fabs(shift) <= slew ==> p == pos + shift)
      && (5.0 * Fabs(pos) <= 4.0 * margin as real && 0.0 < slew < Fabs(shift) ==>
            p == if shift > 0.0 then pos + slew else pos - slew)
  {
    hide EdgeRate;
    NoEdge(pos + shift, margin, dt);
  }

  lemma NoEdge(p: real, margin: nat, dt: real)
    requires 5.0 * Fabs(p) <= 4.0 * margin as real
    ensures Edge(p, margin, dt) == p
  {
    hide Shrink, EdgeRate;
    if margin > 0 {
      DivideBy(Fabs(p), margin as real);
    }
  }

  lemma DivideBy(a: real, m: real)
    requires m > 0.0
    ensures a / m * m == a && (5.0 * a <= 4.0 * m <==> a / m <= 0.8)
  {
    var q := a / m;
    assert q * m == a;
    if q <= 0.8 {
      assert (0.8 - q) * m >= 0.0;
    } else {
      assert (q - 0.8) * m > 0.0;
    }
  }

  /** A still offset there is drawn towards the centre by the recentring rate, by all of it after the rate's inverse. */
  lemma NewPosStill(pos: real, rate: real, dt: real, margin: nat)
    requires 5.0 * Fabs(pos) <= 4.0 * margin as real && rate >= 0.0 && dt >= 0.0
    ensures NewPos(pos, pos, 0.0, true, rate, dt, margin, 0.0)
         == if rate * dt >= 1.0 then 0.0 else pos - pos * (rate * dt)
  {
    hide Edge, Shrink;
    ProductNonneg(rate, dt);
    ShrinkCloser(pos, rate * dt);
    ShrinkIs(pos, rate * dt);
    NoEdge(Shrink(pos, rate * dt), margin, dt);
  }

  lemma ShrinkIs(pos: real, rate: real)
    ensures Shrink(pos, rate) == if rate >= 1.0 then 0.0 else pos - pos * rate
  {
  }

  /** In the last fifth, the pull is 15 times what the offset is beyond it, per second, as a share of the margin. */
  lemma NewPosEdge(pos: real, shift: real, rate: real, dt: real, margin: nat)
    requires 4.0 * margin as real < 5.0 * Fabs(pos + shift) && 0 < margin && dt >= 0.0
    requires Fabs(pos + shift) <= margin as real
    ensures var p := pos + shift; var pull := 15.0 * (Fabs(p) / margin as real - 0.8) * dt;
      NewPos(pos, pos, shift, false, rate, dt, margin, 0.0) == if pull >= 1.0 then 0.0 else p - p * pull
  {
    hide Shrink, EdgeRate;
    var p := pos + shift;
    var edge := Fabs(p) / margin as real;
    DivideBy(Fabs(p), margin as real);
    EdgeRateNonneg(edge, dt);
    PullIs(edge, dt);
    ShrinkIs(p, EdgeRate(edge, dt));
    ShrinkCloser(p, EdgeRate(edge, dt));
  }

  lemma PullIs(edge: real, dt: real)
    ensures EdgeRate(edge, dt) == 15.0 * (edge - 0.8) * dt
  {
  }

  // ---- the offset follows the rotation ----

  /** What an axis is configured to. */
  datatype Setup = Setup(pixels: real, gain: real, band: real, alpha: real, margin: nat, slew: real)

  /** An angle in pixels. */
  function Shifted(angle: real, pixels: real, gain: real): real { angle * pixels * gain }

  /** The rotation is past the deadband, moves the offset by more than what counts as still, no further than the slew
      limit, and leaves it off the last fifth of the margin. */
  predicate Unhindered(u: Setup, pos: real, angle: real)
  {
    var shift := Shifted(angle, u.pixels, u.gain);
    && Fabs(angle) >= u.band && Fabs(angle) * u.pixels >= 0.5
    && 5.0 * Fabs(pos + shift) <= 4.0 * u.margin as real && (u.slew <= 0.0 || Fabs(shift) <= u.slew)
  }

  /** Then the offset is the one before and the angle in pixels, on the side the axis turns to. */
  predicate Moves(u: Setup, pos: real, next: real, rate: real, angle: real)
  {
    Unhindered(u, pos, angle) ==>
      && next == pos + Shifted(angle, u.pixels, u.gain)
      && (rate > 0.0 ==> next > pos) && (rate < 0.0 ==> next < pos)
  }

  /** So it is with every rotation that holds still for a frame. */
  predicate Follows(u: Setup, rs: seq<Reading>, tPrev: Timespec, now: Timespec, bias: real, pos: real, next: real)
  {
    Dense(rs, tPrev, now) && BiasFixed(rs, u.alpha) && Steady(rs, rs[0].gyro) ==>
      var rate := rs[0].gyro - bias;
      Moves(u, pos, next, rate, Swept(rate, Seconds(tPrev, now)))
  }

  lemma FollowsRotation(u: Setup, rs: seq<Reading>, tPrev: Timespec, now: Timespec, bias: real, pos: real, next: real,
                        idle: bool, rate: real, dt: real)
    requires u.pixels > 0.0 && u.gain > 0.0
    requires var angle := Angle(rs, tPrev, now, bias, u.alpha, u.band);
      && (Fabs(angle) * u.pixels >= 0.5 ==> !idle)
      && next == NewPos(pos, pos, Shifted(angle, u.pixels, u.gain), idle, rate, dt, u.margin, u.slew)
    ensures Follows(u, rs, tPrev, now, bias, pos, next)
  {
    hide Dense, BiasFixed, Steady, Angle, NewPos, Seconds, Shifted, Swept;
    var angle := Angle(rs, tPrev, now, bias, u.alpha, 0.0);
    AngleBand(rs, tPrev, now, bias, u.alpha, u.band);
    if Dense(rs, tPrev, now) {
      DenseForward(rs, tPrev, now);
      if BiasFixed(rs, u.alpha) && Steady(rs, rs[0].gyro) {
        var turn := rs[0].gyro - bias;
        AngleSteady(rs, tPrev, now, bias, u.alpha, rs[0].gyro);
        SweptIs(turn, Seconds(tPrev, now));
        Side(turn, Seconds(tPrev, now));
        if Unhindered(u, pos, angle) {
          MovesBy(u, pos, angle, rate, dt);
        }
        assert Moves(u, pos, next, turn, angle);
        assert angle == Swept(turn, Seconds(tPrev, now));
      }
    }
  }

  lemma MovesBy(u: Setup, pos: real, angle: real, rate: real, dt: real)
    requires u.pixels > 0.0 && u.gain > 0.0 && Unhindered(u, pos, angle)
    ensures var next := NewPos(pos, pos, Shifted(angle, u.pixels, u.gain), false, rate, dt, u.margin, u.slew);
      && next == pos + Shifted(angle, u.pixels, u.gain) && angle != 0.0
      && (angle > 0.0 ==> next > pos) && (angle < 0.0 ==> next < pos)
  {
    hide NewPos, Shifted;
    NewPosFree(pos, Shifted(angle, u.pixels, u.gain), rate, dt, u.margin, u.slew);
    ShiftSide(angle, u.pixels, u.gain);
  }

  lemma ShiftSide(angle: real, pixels: real, gain: real)
    requires pixels > 0.0 && gain > 0.0
    ensures angle > 0.0 <==> Shifted(angle, pixels, gain) > 0.0
    ensures angle < 0.0 <==> Shifted(angle, pixels, gain) < 0.0
  {
    var x := angle * pixels;
    if angle > 0.0 {
      assert x > 0.0 && x * gain > 0.0;
    } else if angle < 0.0 {
      assert x < 0.0 && x * gain < 0.0;
    }
  }

  lemma NotIdle(angle: real, other: real, pixels: real)
    requires pixels > 0.0 && Fabs(angle) * pixels >= 0.5
    ensures (Fabs(angle) + Fabs(other)) * pixels >= 0.5
  {
    ProductNonneg(Fabs(other), pixels);
  }

  lemma Side(d: real, t: real)
    requires t >= 0.0
    ensures d > 0.0 ==> Swept(d, t) >= 0.0
    ensures d < 0.0 ==> Swept(d, t) <= 0.0
  {
  }

  lemma DenseForward(rs: seq<Reading>, tPrev: Timespec, now: Timespec)
    requires Dense(rs, tPrev, now)
    ensures rs != [] && Seconds(tPrev, now) >= 0.0
  {
    hide Seconds;
    Forward(rs, tPrev);
    SecondsAdd(tPrev, rs[|rs| - 1].ts, now);
  }

  lemma {:induction false} Forward(rs: seq<Reading>, tPrev: Timespec)
    requires rs != [] && Close(rs, tPrev)
    ensures Seconds(tPrev, rs[|rs| - 1].ts) >= 0.0
  {
    hide Seconds;
    var k := |rs| - 1;
    if k > 0 {
      var before := rs[..k];
      assert forall i :: 0 <= i < k ==> before[i] == rs[i] && Before(before, tPrev, i) == Before(rs, tPrev, i);
      Forward(before, tPrev);
      SecondsAdd(tPrev, rs[k - 1].ts, rs[k].ts);
    }
    assert 0.0 <= Seconds(Before(rs, tPrev, k), rs[k].ts);
  }
}
