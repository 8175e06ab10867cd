/** One axis of the crop controller of src/eis_gyroglide.c, on real numbers: the batch of gyro readings, and the steps
    that turn a rotation into a crop offset. */
module GyroglideAxis {
  import opened Arith
  import opened Timespec

  const DT_MAX := 0.05
  const DT_MIN := 0.001
  const TAIL_MAX := 0.02
  const BIAS_THRESH := 0.05
  const EDGE_THRESH := 0.8
  const EDGE_STRENGTH := 5.0
  const EDGE_RATE := 3.0
  const IDLE_PX := 0.5

  function Clamp(v: real, lo: real, hi: real): real { if v < lo then lo else if v > hi then hi else v }

  function Seconds(a: Timespec, b: Timespec): real { (b.sec - a.sec) as real + (b.nsec - a.nsec) as real * 0.000000001 }

  /** A reading of one axis. */
  datatype Reading = Reading(ts: Timespec, gyro: real)

  /** What a batch comes to: the angle turned, and the bias estimate behind it. */
  datatype Turn = Turn(delta: real, bias: real)

  /** The time one reading counts for. */
  function SampleTime(prev: Timespec, ts: Timespec): (dt: real)
    ensures 0.0 <= dt <= DT_MAX
  {
    Clamp(Seconds(prev, ts), 0.0, DT_MAX)
  }

  function AddTurn(delta: real, gyro: real, bias: real, dt: real): real { delta + (gyro - bias) * dt }

  function Part(d: real, alpha: real): real { alpha * d }

  /** The bias follows small readings only. */
  function NewBias(bias: real, gyro: real, alpha: real): real
  {
    if Fabs(gyro) < BIAS_THRESH then bias + Part(gyro - bias, alpha) else bias
  }

  function Integrate(rs: seq<Reading>, tPrev: Timespec, bias: real, alpha: real): Turn
  {
    if rs == [] then Turn(0.0, bias)
    else
      var before, r := Integrate(rs[..|rs| - 1], tPrev, bias, alpha), rs[|rs| - 1];
      var prev := if |rs| == 1 then tPrev else rs[|rs| - 2].ts;
      Turn(AddTurn(before.delta, r.gyro, before.bias, SampleTime(prev, r.ts)), NewBias(before.bias, r.gyro, alpha))
  }

  /** From the last reading to the frame. */
  function WithTail(t: Turn, rs: seq<Reading>, now: Timespec): real
  {
    if rs == [] then t.delta
    else
      var r := rs[|rs| - 1];
      var dt := Seconds(r.ts, now);
      if 0.0 < dt < TAIL_MAX then AddTurn(t.delta, r.gyro, t.bias, dt) else t.delta
  }

  function Deadband(delta: real, band: real): real { if Fabs(delta) < band then 0.0 else delta }

  /** The angle a batch comes to in a frame. */
  function Angle(rs: seq<Reading>, tPrev: Timespec, now: Timespec, bias: real, alpha: real, band: real): real
  {
    Deadband(WithTail(Integrate(rs, tPrev, bias, alpha), rs, now), band)
  }

  lemma NoAngle(rs: seq<Reading>, tPrev: Timespec, now: Timespec, bias: real, alpha: real, band: real)
    requires rs == []
    ensures Angle(rs, tPrev, now, bias, alpha, band) == 0.0
  {
  }

  /** A factor that shrinks. */
  function Shrink(pos: real, rate: real): real
  {
    var factor := 1.0 - rate;
    if factor < 0.0 then 0.0 else pos * factor
  }

  function Recenter(pos: real, idle: bool, rate: real, dt: real): real { if idle then Shrink(pos, rate * dt) else pos }

  /** How hard an offset near the margin is pulled back. */
  function EdgeRate(edge: real, dt: real): real { (edge - EDGE_THRESH) * EDGE_STRENGTH * dt * EDGE_RATE }

  function Edge(pos: real, margin: nat, dt: real): real
  {
    if margin == 0 then pos
    else
      var edge := Fabs(pos) / margin as real;
      if edge > EDGE_THRESH then Shrink(pos, EdgeRate(edge, dt)) else pos
  }

  function Slew(pos: real, prev: real, slew: real): real
  {
    if slew <= 0.0 then pos
    else if pos - prev > slew then prev + slew
    else if pos - prev < -slew then prev - slew
    else pos
  }

  /** All the steps behind the integration. */
  function NewPos(pos: real, prev: real, shift: real, idle: bool, rate: real, dt: real, margin: nat, slew: real): real
  {
    Clamp(Slew(Edge(Recenter(pos + shift, idle, rate, dt), margin, dt), prev, slew), -(margin as real), margin as real)
  }

  /** The crop coordinate of an offset, between 0 and `maxCrop`. */
  function CropAt(pos: real, margin: nat, maxCrop: nat): (c: nat)
    ensures c % 2 == 0 && c <= maxCrop
  {
    var c := margin + Trunc(pos);
    Even(if c < 0 then 0 else if c > maxCrop then maxCrop else c)
  }

  // ---- what the steps keep ----

  /** The offset stays within the margin and, with the slew limit on, within reach of the offset before. */
  lemma NewPosBounds(pos: real, prev: real, shift: real, idle: bool, rate: real, dt: real, margin: nat, slew: real)
    requires Fabs(prev) <= margin as real
    ensures var p := NewPos(pos, prev, shift, idle, rate, dt, margin, slew);
      Fabs(p) <= margin as real && (slew > 0.0 ==> Fabs(p - prev) <= slew)
  {
    hide Edge, Recenter;
  }

  /** Where the margins fit the capture, the coordinate is the margin and the offset, rounded down to even: no clamping
      is left to do. */
  lemma CropExact(pos: real, margin: nat, maxCrop: nat)
    requires Fabs(pos) <= margin as real && 2 * margin <= maxCrop
    ensures 0 <= margin + Trunc(pos) <= maxCrop && CropAt(pos, margin, maxCrop) == Even(margin + Trunc(pos))
  {
  }

  /** The crop moves by less than the slew limit and two pixels more. */
  lemma CropMoves(p: real, q: real, margin: nat, maxCrop: nat, slew: real)
    requires Fabs(p) <= margin as real && Fabs(q) <= margin as real && 2 * margin <= maxCrop && Fabs(p - q) <= slew
    ensures Fabs((CropAt(p, margin, maxCrop) - CropAt(q, margin, maxCrop)) as real) < slew + 2.0
  {
    CropExact(p, margin, maxCrop);
    CropExact(q, margin, maxCrop);
  }

  /** Shrinking never changes sides and never moves away from the centre. */
  lemma ShrinkCloser(pos: real, rate: real)
    requires rate >= 0.0
    ensures var p := Shrink(pos, rate); if pos >= 0.0 then 0.0 <= p <= pos else pos <= p <= 0.0
  {
    var factor := 1.0 - rate;
    if factor >= 0.0 {
      Product(Fabs(pos), factor);
    }
  }

  lemma Product(a: real, f: real)
    requires a >= 0.0 && 0.0 <= f <= 1.0
    ensures 0.0 <= a * f <= a
  {
    assert a - a * f == a * (1.0 - f);
  }

  lemma ProductNonneg(a: real, b: real)
    requires a >= 0.0 && b >= 0.0
    ensures a * b >= 0.0
  {
  }

  /** On the same side of the centre, and no further from it. */
  predicate Closer(p: real, pos: real) { if pos >= 0.0 then 0.0 <= p <= pos else pos <= p <= 0.0 }

  /** Without rotation, the offset moves towards the centre if at all, and never past it. */
  lemma Still(pos: real, rate: real, dt: real, margin: nat, slew: real)
    requires rate >= 0.0 && dt >= 0.0 && Fabs(pos) <= margin as real
    ensures var p := NewPos(pos, pos, 0.0, true, rate, dt, margin, slew);
      Closer(p, pos)
  {
    hide Shrink;
    ProductNonneg(rate, dt);
    ShrinkCloser(pos, rate * dt);
    var p1 := Recenter(pos + 0.0, true, rate, dt);
    assert p1 == Shrink(pos, rate * dt);
    EdgeCloser(p1, margin, dt);
  }

  lemma EdgeRateNonneg(edge: real, dt: real)
    requires edge > EDGE_THRESH && dt >= 0.0
    ensures EdgeRate(edge, dt) >= 0.0
  {
    ProductNonneg((edge - EDGE_THRESH) * EDGE_STRENGTH, dt);
  }

  lemma EdgeCloser(pos: real, margin: nat, dt: real)
    requires dt >= 0.0
    ensures var p := Edge(pos, margin, dt); if pos >= 0.0 then 0.0 <= p <= pos else pos <= p <= 0.0
  {
    hide Shrink, EdgeRate;
    if margin > 0 {
      var edge := Fabs(pos) / margin as real;
      if edge > EDGE_THRESH {
        EdgeRateNonneg(edge, dt);
        ShrinkCloser(pos, EdgeRate(edge, dt));
      }
    }
  }

  ghost predicate BiasKept(alpha: real)
  {
    forall bias, gyro :: Fabs(bias) <= BIAS_THRESH ==> Fabs(NewBias(bias, gyro, alpha)) <= BIAS_THRESH
  }

  /** The bias estimate stays below its threshold, whatever the readings, just when the adaption factor is at most
      one. */
  lemma BiasBounded(alpha: real)
    requires alpha >= 0.0
    ensures BiasKept(alpha) <==> alpha <= 1.0
  {
    if alpha <= 1.0 {
      forall bias, gyro | Fabs(bias) <= BIAS_THRESH ensures Fabs(NewBias(bias, gyro, alpha)) <= BIAS_THRESH {
        BiasStays(bias, gyro, alpha);
      }
    } else {
      var gyro := (BIAS_THRESH + BIAS_THRESH / alpha) / 2.0;
      assert alpha * gyro == (alpha * BIAS_THRESH + BIAS_THRESH) / 2.0;
      assert BIAS_THRESH / alpha < BIAS_THRESH by {
        assert BIAS_THRESH - BIAS_THRESH / alpha == BIAS_THRESH / alpha * (alpha - 1.0);
      }
      assert NewBias(0.0, gyro, alpha) == alpha * gyro;
    }
  }

  lemma BiasStays(bias: real, gyro: real, alpha: real)
    requires 0.0 <= alpha <= 1.0 && Fabs(bias) <= BIAS_THRESH
    ensures Fabs(NewBias(bias, gyro, alpha)) <= BIAS_THRESH
  {
    hide Part;
    if Fabs(gyro) < BIAS_THRESH {
      PartOf(gyro - bias, alpha);
    }
  }

  lemma PartOf(d: real, alpha: real)
    requires 0.0 <= alpha <= 1.0
    ensures if d >= 0.0 then 0.0 <= Part(d, alpha) <= d else d <= Part(d, alpha) <= 0.0
  {
    if d >= 0.0 {
      Product(d, alpha);
    } else {
      Product(-d, alpha);
      assert (-d) * alpha == -(alpha * d);
    }
  }

  /** Over a whole batch. */
  lemma {:induction false} IntegrateBias(rs: seq<Reading>, tPrev: Timespec, bias: real, alpha: real)
    requires 0.0 <= alpha <= 1.0 && Fabs(bias) <= BIAS_THRESH
    ensures Fabs(Integrate(rs, tPrev, bias, alpha).bias) <= BIAS_THRESH
  {
    if rs != [] {
      IntegrateBias(rs[..|rs| - 1], tPrev, bias, alpha);
      BiasStays(Integrate(rs[..|rs| - 1], tPrev, bias, alpha).bias, rs[|rs| - 1].gyro, alpha);
    }
  }
}
